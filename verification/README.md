# libmbus: framing, records, readout and address search

libmbus is a master for the M-Bus, a two-wire bus for meters. This project models its link layer, the variable data
structure of its application layer, and the two bus protocols on top of them, and proves what they promise. The
standard is "The M-Bus: A Documentation", version 4.8; sections are cited where they matter.

**Link layer** (`Bytes`, `Telegram`, `FrameBuffer`, `Framing`, `Port`). `Telegram` holds the fields of a frame as a
value, the incremental parser with its count of missing bytes, the check sum and the packer, and states the wire
format independently of both (`IsTelegram`). `FrameBuffer.Frame` is the mutable frame whose methods fill fields and
buffers in place. `Port` is an abstract line: a stream of pending bytes and a script of what each read call meets. The
two receive loops run on it. Main results: parsing and packing undo each other, with the exact exception; acceptance
is exactly the wire format; any single changed byte is noticed, but for a first byte that becomes E5; a receive takes
exactly one telegram however the bytes are cut into reads.

**Records** (`Records`, `RecordGrammar`, `RecordLaws`, `RecordParser`, `RecordPacker`, `Application`). `Records.Split`
is the record grammar as the parser walks it, `Records.Tiles` says independently what a list of pieces has to be to
cover the data, and `RecordGrammar` says it byte by byte. `RecordParser` is the loop with its cursor and its linked
list, `RecordPacker` the byte-appending packer. Main results: parser and grammar agree in both directions; the whole
way down and up again (pack, frame, receive, parse) gives the same reply data; the two bytes behind the data that the
loop peeks at matter exactly for a record whose LVAR byte would lie there; packing a parse again gives the original
bytes exactly when nothing was normalised away.

**Number codecs** (`Positional`, `IntegerCodec`, `BcdCodec`, `RecordFields`, `SecondaryAddress`, `Fmod`). Each codec
is a pair of loops, proved against a value function, with the exact inputs on which the pair is inverse. `Fmod` counts
in units of 2^-1074, the smallest double, where every finite double is a whole number: doubling is exact, the
subtraction is proved exact, and halving an odd number of units rounds to the even neighbour.

**Address search** (`Bus`, `Master`, `Scan`, `ScanMasks`, `ScanLimits`, `Scanner`, `ScanRange`, `Instances`). `Bus`
models slaves by section 7.1 of the standard: a select telegram selects by wildcard digits, selected slaves answer,
several answers collide. `Master` and `Scanner` are the select, probe and search methods down to the bytes on the
line; `Scan` is the search as a function of the devices. Main result: for any finite population with distinct decimal
IDs, and any mask with a wildcard in its ID, the scan reports every matching device exactly once and no other, each
with the mask narrowed down to the first wildcard at which it is alone, within 10 + 70 * (n / 2) probes for n matching
devices.

**Multi-telegram readout** (`Readout`, `SlaveLink`, `ReplyContent`, `ReadoutMaster`, `Instances`, `ReadoutInstances`).
`Readout` is the stop-and-wait protocol of section 5.5 as a state machine of master, slave and line, where requests
get lost and replies get lost or garbled. `SlaveLink` is the slave and the line in bytes, `ReadoutMaster` the loop of
the master down to packed requests, received frames and the chain of reply frames, and refines the protocol.
`ReplyContent` says in bytes which reply announces another telegram. Main results: wherever the slave is and over
every pattern of losses and garbled replies a telegram is taken at its own place only; all that is taken are the
slave's telegrams if and only if no reply with a leading E5 meets a frame that still holds something that parses; the
readout ends within the request bound; it completes if no more than the allowed number of exchanges in a row fail; the
chain of frames holds exactly what was taken.

Bytes are integers from 0 to 255; bit masks and shifts are written as division and remainder, and every place where an
`unsigned char` wraps is written out. Pending bytes, read results, losses and what a collision sounds like are
parameters (`Port.Port.script`, `SlaveLink.Link.fate`, `SlaveLink.Link.garbage`, `Bus.Bus.noise`).

## Where code and documentation disagree

The model follows the code. Each line names the exact condition and, where the condition alone does not show it, an
instance.

- `max_frames` of zero or less reads one telegram; `mbus/mbus-protocol-aux.h:328` says "no limit".
- `mbus_probe_secondary_range` is documented to call back for each match (`mbus/mbus-protocol-aux.h:502-504`). Nested
  levels print instead, so the callback hears only of devices that are alone on their digit at the position of the
  call: `ScanLimits.CallbackHearsExactly`, `Instances.CallbackHearsNothing`.
- A mask whose ID has no wildcard is searched on to its first wildcard behind the ID. Without one, the device is found.
  With one, a digit filled in there makes a literal byte. If both characters of that byte are wildcards, the device is
  found if and only if its own byte is one of 0F, 1F .. 9F. If one of them is a literal, the device that matches is
  never found, and one that does not match can be: `ScanLimits.FullIdSearch`, `Instances.FullIdIsMissed`,
  `Instances.StrangerIsReported`.
- `mbus_data_bcd_encode` puts the sign of a negative value into the lowest byte, `mbus_data_bcd_decode` looks for it
  in the highest, and a value that does not fit is cut off: `BcdCodec.RoundTripExactly`, `BcdCodec.RoundTripFails`.
- An ID digit A to E of a secondary address is valid and sent as 1 to 5: `SecondaryAddress.AddressRoundTripExactly`,
  `Instances.IdLetterIsLost`.
- `mbus_data_variable_parse` reads an LVAR byte behind the data: `RecordLaws.IndependentOfStaleBytesExactly`,
  `Instances.DanglingDataParsesByChance`.
- `fs_fmod` returns a number of the wrong sign for some arguments next to the smallest double: `Fmod.FsFmod`,
  `Fmod.ThreeByOneFails`.
- `mbus_sendrecv_request` retries into the frame of a rejected reply. `mbus_parse` has filled it by then, takes a
  later reply with a leading E5 for an ACK without looking at the rest, and `mbus_frame_data_parse` does not look at
  the kind of frame: the data of the rejected reply is taken, and 0 is returned: `Readout.GenuineExactly`,
  `Instances.RejectedReplyStays`, `Instances.RejectedCountIsTaken`.
- `mbus_parse` accepts every buffer that starts with E5 as an ACK, whatever its length: `Telegram.PackUndoesParse`.

## Model

| member | source | states |
|---|---|---|
| Telegram.AcceptsExactly | mbus/mbus-protocol.c:3560-3707 | mbus_parse returns 0 exactly for telegrams of the wire format (lengths, start and stop bytes, allowed control bytes, check sum over the counted bytes) and for anything that starts with E5 |
| Telegram.AcceptsByBits | mbus/mbus-protocol.c:382-470 | the same in terms of the bytes: a short telegram has control byte 40, or REQ_UD1 or REQ_UD2 from the master with any frame count bit; a long one is a response with any ACD and DFC bit, or SND_UD with any frame count bit |
| Telegram.VerifyExactly | mbus/mbus-protocol.c:382-470 | a frame of a known kind is verified as good exactly if its bytes on the wire are a telegram; for an ACK the answer is then 1 and otherwise 0 |
| Telegram.NeedIsExact | mbus/mbus-protocol.c:3592-3663 | the count of missing bytes is exact: delivering part of them leaves exactly the rest missing |
| Telegram.NeedIsBounded | mbus/mbus-protocol.c:3592-3663 | received plus missing bytes never pass 261 |
| Telegram.NeverAsksPastTheEnd | mbus/mbus-protocol.c:3592-3663 | on every strict prefix of a telegram the parser asks for more, and never for bytes behind the telegram's end |
| Telegram.PackedIsTelegram | mbus/mbus-protocol.c:4046-4143 | every frame that may be sent is packed into a telegram of the wire format |
| Telegram.ParseUndoesPack | mbus/mbus-protocol.c:4046-4143 | parsing a packed frame gives the frame back, whatever the parser's frame held before; a long frame without data comes back as the control frame with the same bytes |
| Telegram.PackUndoesParse | mbus/mbus-protocol.c:3560-3707 | an accepted buffer repacks to the same bytes exactly if it is a telegram; the only others start with E5 and are longer than one byte |
| Telegram.OneByteErrorExactly | mbus/mbus-protocol.c:382-470 | changing any one byte of a short, control or long telegram of any length is rejected, except exactly a first byte that becomes E5 |
| FrameBuffer.Frame.CalcChecksum | mbus/mbus-protocol.c:232-274 | the check sum loop over the frame's fields computes the specified sum for every kind |
| Telegram.LengthByteExactly | mbus/mbus-protocol.c:308-320 | the length byte counts what lies on the wire between the second start byte and the check sum exactly as long as there are no more than 252 data bytes |
| FrameBuffer.Frame.constructor | mbus/mbus-protocol.c:164-209 | a new frame has the start, stop and length bytes of its kind, all else zero |
| FrameBuffer.Frame.VerifyFrame | mbus/mbus-protocol.c:382-470 | the verdict on the mutable frame is that on its fields, including 1 for a good ACK |
| FrameBuffer.Frame.ParseBuffer | mbus/mbus-protocol.c:3560-3707 | parsing into the frame in place leaves exactly the specified fields, the bytes behind the data as they were, and returns the specified code, also when the telegram is rejected |
| FrameBuffer.Frame.PackInto | mbus/mbus-protocol.c:4046-4143 | packing from the frame in place writes exactly the specified bytes or fails with the specified code, and nothing behind them |
| Framing.PartialReadKeepsStop | mbus/mbus-serial.c:392-438 | a read that brings only part of the wanted bytes does not move the point at which the loop stops |
| Framing.ReparseFromPrefix | mbus/mbus-serial.c:392-438 | parsing again from the longer buffer gives what parsing it once gives, whatever an earlier prefix left in the frame |
| Framing.EndOfTelegram | mbus/mbus-serial.c:392-438 | on a stream that starts with a telegram the loop stops exactly at its end |
| Framing.ChunkingIndependence | mbus/mbus-serial.c:392-466 | whatever the read sizes, and with fewer than three empty reads, a receive takes exactly the telegram at the head of the stream and fills the frame from it |
| Framing.OutcomeOkExactly | mbus/mbus-serial.c:392-466 | a receive on a prompt line succeeds exactly if the stream starts with a telegram |
| Port.SerialReceive | mbus/mbus-serial.c:368-467 | the loop ends in one of the specified ways, consumes exactly the bytes it reports, leaves in the frame what parsing them once leaves, and its buffer guard never fires |
| Port.TcpReceive | mbus/mbus-tcp.c:177-243 | the same loop with its own failure codes: the first empty read ends it, as a timeout on an empty line and a reset on a closed one |
| Framing.ReceiversAgree | mbus/mbus-tcp.c:193-229 | on the same stream without empty and failing reads the two loops agree on result, bytes consumed and frame, however differently the bytes are split |
| Records.MeasuredExactly | mbus/mbus-protocol.c:3805-3947 | the cursor steps over exactly the parts of a well-formed record: DIF and DIFE chain, VIF with custom text, VIFE chain, LVAR escape, data |
| Records.SplitIsTheTiling | mbus/mbus-protocol.c:3787-3958 | the record loop accepts exactly the data that is covered by fillers and records without gap or overlap, and finds exactly that covering, in wire order, with a manufacturer specific block only at the end |
| RecordGrammar.OrdinaryPartsExactly | mbus/mbus-protocol.c:3805-3953 | the parts of a record are accepted exactly if DIF and VIF chains, custom text, LVAR byte and data width are right, each in terms of its bytes, with the widths by DIF nibble and the lengths by LVAR range written out |
| RecordGrammar.TailPartsExactly | mbus/mbus-protocol.c:3806-3828 | a manufacturer specific block is DIF 0F or 1F alone, and data |
| RecordGrammar.RecordWidths | mbus/mbus-protocol.c:2057-2100 | every record of an accepted telegram has the data width that the low nibble of its DIF stands for (0 to 4, 4, 6 and 8 bytes) or the length that its LVAR byte stands for; only the last one can be a manufacturer specific block |
| RecordGrammar.RecordFromParts | mbus/mbus-protocol.c:3805-3953 | the record has the DIF, DIFE, VIF, VIFE and data bytes in wire order, and a custom VIF back to front |
| RecordGrammar.RecordsInOrder | mbus/mbus-protocol.c:3787-3958 | a filler leaves no record and every other piece one, in wire order |
| RecordLaws.PiecesCoverTheData | mbus/mbus-protocol.c:3787-3958 | the lengths of fillers and records add up to the data, every piece is a filler or a record, no chain is longer than ten, and more records follow exactly if the last record's DIF is 1F |
| RecordLaws.StaleBytesDoNotMatter | mbus/mbus-protocol.c:3837-3947 | unless an LVAR byte would lie at the data's end, the bytes behind the data do not influence the parse |
| RecordLaws.DanglingReadsAStaleByte | mbus/mbus-protocol.c:3927-3947 | if one would, the parse succeeds exactly if that stale byte is FB or above |
| RecordLaws.IndependentOfStaleBytesExactly | mbus/mbus-protocol.c:3787-3958 | the parse is independent of the bytes behind the data if and only if no record dangles |
| RecordLaws.ParseUndoesPackVariable | mbus/mbus-protocol.c:4150-4249 | for every header and list of fixed width records, parsing undoes packing |
| RecordLaws.ParsesTail | mbus/mbus-protocol.c:3806-3828 | behind any header and any fixed width records, a manufacturer specific block becomes the last record, and the more-records flag is set exactly if its DIF is 1F |
| RecordLaws.RepackExactly | mbus/mbus-protocol.c:4150-4249 | packing the records of a parse gives the original bytes if and only if there was no filler, no custom VIF, no LVAR byte and no manufacturer specific block |
| Application.ReplyRoundTrip | mbus/mbus-protocol.c:3971-4038 | error, fixed and variable reply data packed, framed, parsed by the link layer and by the application layer come back unchanged, whatever the receiving frame held |
| Application.DataParseIgnoresStaleBytes | mbus/mbus-protocol.c:3971-4038 | reply data depends on the frame's data bytes alone, except where a record dangles |
| RecordParser.VariableBlock.Append | mbus/mbus-protocol.c:5122-5140 | walking to the end of the linked list and hanging a record there appends it to the contents and keeps the list well formed |
| RecordParser.ReadRecord | mbus/mbus-protocol.c:3805-3953 | one pass of the loop fills a record with exactly the parts at the cursor, or fails exactly where the specification does |
| RecordParser.ParseVariable | mbus/mbus-protocol.c:3753-3964 | the loop leaves exactly the records of the covering in the list, in order and counted, and the more-records flag |
| RecordParser.ParseFrameData | mbus/mbus-protocol.c:3971-4038 | dispatch on direction and CI byte gives the specified reply data |
| RecordPacker.PutRecords | mbus/mbus-protocol.c:4213-4240 | walking the list and appending byte after byte writes exactly the packed records |
| RecordPacker.PackFrameData | mbus/mbus-protocol.c:4150-4249 | the frame's data is exactly the packed reply data, or -2 with no data |
| IntegerCodec.DecodeUndoesEncode | mbus/mbus-protocol.c:691-706 | decoding undoes encoding on the whole signed range of n bytes |
| IntegerCodec.EncodeUndoesDecode | mbus/mbus-protocol.c:584-615 | every byte string is the encoding of its value, and the value is in range |
| IntegerCodec.DecodeStaysInRange | mbus/mbus-protocol.c:584-683 | on the way the accumulator never leaves [0, 2^(8n-1)), and the result is in the signed range, so none of the three widths overflows and they agree |
| IntegerCodec.Decode | mbus/mbus-protocol.c:584-615 | the complement-and-negate loop computes the two's complement value |
| IntegerCodec.Encode | mbus/mbus-protocol.c:691-706 | the shift loop writes the low bytes of the value, lowest first |
| BcdCodec.BcdMeaning | mbus/mbus-protocol.c:523-552 | decimal digits decode to their positional value; under a top nibble F the other digits decode to their negated value |
| BcdCodec.BcdByByte | mbus/mbus-protocol.c:523-552 | byte by byte: a byte has the value of its two nibbles, and the bytes behind it count a hundredfold |
| BcdCodec.BcdValueIsBounded | mbus/mbus-protocol.c:523-552 | any n bytes decode to a value of at most 105 (100^n - 1) / 99 either way |
| BcdCodec.RoundTripExactly | mbus/mbus-protocol.c:485-552 | for every value and n bytes, decoding the reversed bytes of the encoded value gives it back if and only if it is from 0 to 100^n - 1, or a single negative digit in one byte |
| BcdCodec.RoundTripFails | mbus/mbus-protocol.c:485-552 | -12 in two bytes and 100 in one byte do not come back |
| BcdCodec.Decode | mbus/mbus-protocol.c:523-552 | the decode loop computes the specified value for all bytes, decimal or not |
| BcdCodec.Encode | mbus/mbus-protocol.c:485-515 | the encode loop writes the specified bytes from the end of the buffer down |
| RecordFields.FieldsDetermineBits | mbus/mbus-protocol.c:3427-3494 | storage number, tariff and device are below 2 * 16^n, 4^n and 2^n, and together give back the storage bit, which is bit 6 of the DIF and the lowest of the storage number, and all DIFE bits but the extension bits |
| RecordFields.FieldsByByte | mbus/mbus-protocol.c:3427-3494 | byte by byte: bit 6 of the DIF is the lowest storage bit, and each DIFE adds four storage bits, two tariff bits and one device bit above those of the DIFE in front of it |
| RecordFields.BitsForFields | mbus/mbus-protocol.c:3427-3494 | every three numbers in range are the reading of some DIFE bytes |
| RecordFields.ReadStorageNumber | mbus/mbus-protocol.c:3427-3448 | the or-and-shift loop computes the positional storage number, whose lowest bit is bit 6 of the DIF, wherever its shifts stay within an int |
| RecordFields.ReadTariff | mbus/mbus-protocol.c:3453-3471 | the loop computes the positional tariff, -1 without DIFE |
| RecordFields.ReadDevice | mbus/mbus-protocol.c:3476-3494 | the loop computes the positional device number, -1 without DIFE |
| Fmod.FsFmod | lib/pow.c:156-184 | on doubles, with the rounding of x / 2: the result is the remainder (x minus it is a whole multiple of y, it is smaller than y and zero or of the sign of x) if and only if not both 4 and twice y divide x + 1, counted in smallest doubles without sign; otherwise it is one of them with the wrong sign; 0 for y = 0 and for infinities |
| Fmod.FitsExactly | lib/pow.c:156-184 | the doubles counted in smallest doubles are exactly the numbers with a 53-bit significand and a power of two |
| Fmod.DifferenceFits | lib/pow.c:177 | the subtraction does not round: the difference of two doubles within a factor of two of each other is a double |
| Fmod.ThreeByOneFails | lib/pow.c:156-184 | 3 by 1 smallest doubles is one input where the result is no remainder |
| Fmod.NormalNumbersAreFine | lib/pow.c:156-184 | it fails only for an x below 2^53 smallest doubles |
| Fmod.RemainderIsUnique | lib/pow.c:156-184 | at most one number is such a remainder |
| SecondaryAddress.AddressRoundTripExactly | mbus/mbus-protocol.c:5148-5262 | the bytes selected for an address render as that address in upper case if and only if its first eight characters are decimal digits or F |
| SecondaryAddress.IsAddressExactly | mbus/mbus-protocol.c:5277-5294 | an address is valid exactly if it has sixteen hexadecimal digits in either case |
| SecondaryAddress.SelectBytes | mbus/mbus-protocol.c:5198-5262 | two characters make a byte, the first one its high nibble; the bytes of the ID go last to first, the others in order |
| SecondaryAddress.IdDigit | mbus/mbus-protocol.c:5238-5259 | an ID character F is sent as the wildcard nibble, a decimal digit as itself, A to E as 1 to 5 |
| SecondaryAddress.RenderedCharacters | mbus/mbus-protocol.c:5148-5192 | each pair of characters of a rendered address is one byte of the header in upper case, the ID from its last byte to its first |
| SecondaryAddress.SelectPack | mbus/mbus-protocol.c:5198-5262 | an invalid address changes nothing and gives -1; a valid one makes the frame the select telegram with exactly those eight bytes |
| SecondaryAddress.GetSecondaryAddress | mbus/mbus-protocol.c:5148-5192 | the rendered header of a variable data reply, or nothing |
| Bus.ClassifyExactly | mbus/mbus-protocol-aux.c:2280-2327 | over the pending bytes: NOTHING exactly if there are none or a telegram other than an ACK starts them, SINGLE exactly for a lone E5, COLLISION for everything else |
| Bus.SelectTelegram | mbus/mbus-protocol.c:5198-5262 | the select telegram byte for byte |
| Bus.DataRequestTelegram | mbus/mbus-protocol-aux.c:1970-1998 | the data request to the selected device byte for byte |
| Bus.DeviceAddress | mbus/mbus-protocol.c:5148-5192 | the reply telegram of a device gives its address, whatever lies behind the frame's data |
| Bus.PackedReplyIsGood | mbus/mbus-protocol.c:4150-4249 | every packed reply with a decimal ID and fixed width records makes a device that the search results apply to |
| Master.PurgeFrames | mbus/mbus-protocol-aux.c:1780-1799 | purging ends on every line, consumes only pending bytes, drains a prompt line, and reports whether anything was there |
| Master.SendSelect | mbus/mbus-protocol-aux.c:1819-1841 | the packed telegram selects exactly the devices that the mask matches; an invalid mask sends nothing |
| Master.SelectSecondary | mbus/mbus-protocol-aux.c:2280-2327 | the verdict is the classification of what is pending after the select, and SINGLE and COLLISION leave the line drained |
| Master.IdealSelect | mbus/mbus-protocol-aux.c:2280-2327 | on a drained ideal bus the verdict is NOTHING exactly if no device matches and SINGLE if one does; several are a collision or, when their acknowledgements overlap into one, look single |
| Scan.MatchesByDigits | mbus/mbus-protocol.c:5198-5262 | a mask matches by the digits of its ID and by the bytes behind it |
| Scan.DigitPartitions | mbus/mbus-protocol-aux.c:2514-2540 | filling in a digit at a wildcard of the ID keeps exactly the matching devices with that digit |
| Scan.NoWildsNoCollision | mbus/mbus-protocol-aux.c:2545-2559 | without a wildcard in the ID at most one device matches, so the recursion never runs out of digits |
| Scan.SearchIsComplete | mbus/mbus-protocol-aux.c:2485-2591 | for every valid mask with a wildcard in its ID and any manufacturer, version and medium, a search reports every matching device exactly once and no other, each under a mask that matches no other device, within 10 + 70 (n / 2) probes and retries + 1 selects for each |
| ScanMasks.HitsAreFound | mbus/mbus-protocol-aux.c:2514-2570 | for every such mask and every callback, stopping or not: a device is found under the scanned mask with the wildcards filled in by its digits up to the first one at which no other device matches |
| ScanMasks.StopsAfterFirst | mbus/mbus-protocol-aux.c:2547-2554 | for every mask and position, the hits of a search with a callback are those without one, up to and including the first of its own level for which it asks to stop |
| ScanLimits.CallbackHearsExactly | mbus/mbus-protocol-aux.c:2514-2570 | a caller's callback hears exactly the devices alone on their digit at the position of the call, so all of them if and only if no probe of that level collides |
| ScanLimits.FullIdDelivers | mbus/mbus-protocol-aux.c:2514-2570 | for every valid mask without a wildcard in its ID, a search reports exactly once each: the device that matches if no wildcard follows, otherwise the devices that match with a digit filled in at the first wildcard |
| ScanLimits.FullIdSearch | mbus/mbus-protocol-aux.c:2514-2570 | so it reports exactly what the mask matches if and only if no wildcard follows, or at the first one: with the byte all wild, the device has a digit there and F beside it; with a literal beside it, no device of that ID and literal has a digit or F there |
| Instances.CallbackHearsNothing | mbus/mbus-protocol-aux.c:2555-2559 | two meters that share a digit both match, and a callback hears of neither |
| Instances.FullIdIsMissed | mbus/mbus-protocol-aux.c:2514-2570 | a meter that matches its own ID followed by wildcards is not found |
| Instances.StrangerIsReported | mbus/mbus-protocol-aux.c:2514-2570 | a meter that does not match its own ID followed by F4 is reported |
| Instances.DanglingDataParsesByChance | mbus/mbus-protocol.c:3927-3947 | a header, DIF 0D and VIF 00 parse or not depending on the byte behind them |
| Instances.IdLetterIsLost | mbus/mbus-protocol.c:5198-5262 | a valid address with the ID digit A is rendered with 1 in its place |
| Scanner.Handle.FetchSelected | mbus/mbus-protocol-aux.c:2349-2394 | the data request tells one selected device from several that looked like one |
| Scanner.Handle.ProbeSecondary | mbus/mbus-protocol-aux.c:2334-2413 | the verdict of a probe is that of the matching devices, even if overlapping acknowledgements look like one; a single device comes with its address, only silence is retried, and the found event hears exactly of single devices |
| Scanner.Handle.ProbeRange | mbus/mbus-protocol-aux.c:2485-2575 | the recursive method on its own copy of the mask leaves exactly the specified reports, probe and select counts and result, for every mask, position and callback |
| ScanRange.TextIdentifiesDevice | mbus/mbus-protocol.c:5148-5192 | no two devices with distinct decimal IDs are reported under the same text |
| ScanRange.TextsExactlyOnce | mbus/mbus-protocol-aux.c:2577-2591 | devices reported exactly once are address texts reported exactly once |
| ScanRange.SearchReports | mbus/mbus-protocol-aux.c:2547-2582 | every report of a search, printed or handed to a caller's function that may stop it: the address of a device that matches the scanned mask, with the mask that has the address's characters in place of the wildcards up to the first one at which the device is alone, and is unchanged elsewhere |
| ScanRange.CalledOrPrinted | mbus/mbus-protocol-aux.c:2514-2582 | hit by hit, in order: a caller's function is called for a hit of its own level, and a hit of a nested level is printed |
| ScanRange.ScanSecondRange | mbus/mbus-protocol-aux.c:2588-2591 | from end to end: the found event hears, or else the printer prints, the address of each matching device exactly once and no other, printed with the mask narrowed down to the first wildcard at which the device is alone, at the stated cost |
| Readout.StepKeeps | mbus/mbus-protocol-aux.c:2124-2229 | every pass of the loop, whatever is lost or garbled, keeps: each telegram taken is at its place, bits in step, retries and requests within bounds |
| Readout.TakenInOrder | mbus/mbus-protocol-aux.c:2109-2229 | wherever the slave is before the call and whatever is lost or garbled, a telegram taken stands at its own place among those from first on: none is taken for another, none twice |
| Readout.GenuineExactly | mbus/mbus-protocol-aux.c:2144-2180 | all that is taken are the slave's telegrams first, first + 1, .. if and only if no reply with a leading E5 is accepted while the frame holds something that parses, such as a rejected reply |
| Readout.UnparsableEnds | mbus/mbus-protocol-aux.c:2175-2180 | a leading E5 on a frame that does not parse ends the readout with an error, and nothing is taken |
| Readout.RunOnlyAdds | mbus/mbus-protocol-aux.c:2124-2229 | whatever happens later, no telegram taken is given back and no request is unsent, and a master that has stopped stays as it is |
| Readout.CompleteStopsRight | mbus/mbus-protocol-aux.c:2169-2222 | a complete readout ends with the first item without more to follow, or at max(1, max_frames) |
| Readout.RequestsAreBounded | mbus/mbus-protocol-aux.c:2124-2229 | at most max(1, max_frames) * (max_data_retry + 1) requests; a request repeats the bit of its predecessor exactly if that one brought nothing |
| Readout.FirstBitIsSet | mbus/mbus-protocol-aux.c:2109-2112 | the first request of a call has the frame count bit set |
| Readout.ReadoutEnds | mbus/mbus-protocol-aux.c:2124-2229 | after that many passes the master has stopped |
| Readout.ToleratesMisses | mbus/mbus-protocol-aux.c:2126-2167 | with no more than max_data_retry failures in a row anywhere the master never gives up, and without a leading E5 it completes if the telegrams parse |
| Readout.GivesUpExactly | mbus/mbus-protocol-aux.c:2126-2167 | it gives up exactly at one failure in a row more than that |
| SlaveLink.Link.AnswerMeans | mbus/mbus-protocol.c:3566-3707 | what each fate of an exchange is received as, and what the frame then parses to: a delivered telegram replaces all that counts, a rejected one stays in the frame, a leading E5 changes none of it |
| SlaveLink.RequestBytes | mbus/mbus-protocol-aux.c:2109-2122 | a request byte for byte: REQ_UD2 with frame count bit, 7B, or without, 5B |
| ReplyContent.ContentExactly | mbus/mbus-protocol-aux.c:2169-2222 | a frame announces more exactly if it is from a slave, has CI byte 72 and its data is covered by records of which the last has DIF 1F; it is the last exactly if it is from a slave with CI byte 70, 73 and 16 bytes, or 72 and a covering that does not end so; otherwise it does not parse |
| ReplyContent.ReplyContentExactly | mbus/mbus-protocol-aux.c:2169-2222 | the same for a reply telegram, in terms of its bytes |
| ReadoutMaster.Exchange | mbus/mbus-protocol-aux.c:2135-2167 | request out in bytes, reply in, line purged: the result and the frame are those of the bytes that came back, for every reply, good or garbled |
| ReadoutMaster.CourseIsKnown | mbus/mbus-protocol-aux.c:2124-2229 | at every entry of the course of a call the state is the protocol's for the fates so far, and the protocol knows what the frame to be filled parses to |
| ReadoutMaster.ChainHolds | mbus/mbus-protocol-aux.c:2197-2217 | walking the next pointers from the reply visits distinct frames that hold what was taken, in order |
| ReadoutMaster.OneByteARequest | mbus/mbus-protocol-aux.c:2215-2216 | the control bytes sent are 7B for a set and 5B for a cleared frame count bit of the protocol, one for one |
| ReadoutMaster.SendRecvRequest | mbus/mbus-protocol-aux.c:2083-2233 | for every slave state, every content of the caller's frame and every pattern of losses and garbled replies, the method on frames and bytes is a run of the protocol to its end: 0 exactly if it completes, the control bytes sent are those of the run, and the frames from reply through next hold exactly what it takes, ending in null on success |
| ReadoutMaster.WhatTheCallerGets | mbus/mbus-protocol-aux.c:2083-2233 | from there: no more than max(1, max_frames) * (max_data_retry + 1) requests; each frame holds the telegram of its place or an old content that parses, the latter if and only if a leading E5 met one; on return 0 the frames end with the first without more to follow or at max(1, max_frames) |
| ReadoutInstances.AnnouncingReplyIsRead | mbus/mbus-protocol.c:3806-3828 | any reply of a header, fixed width records and a last byte 1F announces another telegram, and its records are those that were packed, and the block |
| ReadoutInstances.SensusIsRead | test/test-frames/SEN_Sensus-PolluStat-E.hex:1 | so does a reply with the data bytes of this file |
| ReadoutInstances.TwoAreTaken | mbus/mbus-protocol-aux.c:2169-2222 | if the slave's next telegram announces another, which is the last, and both arrive, a call that reads up to two or more completes with both, in order |
| ReadoutInstances.TwoFramesAreFilled | mbus/mbus-protocol-aux.c:2197-2217 | the caller then has a chain of two frames, its own and a second one, with the fields of the two telegrams |
| ReadoutInstances.SensusAndCounterAreTaken | mbus/mbus-protocol-aux.c:2169-2222 | an instance: the data of that file first, then a counter |
| Instances.RejectedReplyStays | mbus/mbus-protocol.c:3592-3707 | for every reply: with one data byte changed it is rejected, and after a second reply with a leading E5 the frame holds the control byte, CI byte and data of the rejected one |
| Instances.RejectedCountIsParsed | mbus/mbus-protocol.c:3971-4038 | a meter at v, its byte changed to w in the first reply, a leading E5 in the second: the frame parses to a meter at w |
| Instances.RejectedCountIsTaken | mbus/mbus-protocol-aux.c:2144-2222 | with these two replies and one retry the call succeeds, and what it takes is no telegram of the slave |

## Left out

- Devices and sockets: opening, baudrate, parity, interrupted system calls, event hooks; a line is a stream of bytes and a script of read results.
- Echo purging in mbus_recv_frame; the model has purge_first_frame set to none.
- The command line programs, XML and text output, error strings, static buffers, timestamps.
- Unit, medium, VIF, product and manufacturer tables, and time and string decoding of record values.
- Floating point record values, fs_sqrt, fs_log, fs_exp and fs_pow: their stopping rules depend on rounding.
- Failing allocation and freeing.
- Fmod.FsFmod: takes round to nearest, ties to even, and does not tell -0 from 0.
- RecordFields.ReadStorageNumber: for up to seven DIFE bytes, or eight whose last has no more than two storage bits, because more shift an int out of its width in the original.
- BcdCodec.Encode: the absolute value of the smallest int, which overflows in the original, is taken as it is.
- RecordParser.ReadRecord: record data and custom VIF are sequences without the original's 234 and 128 byte buffers; the statements carry over for data_size up to 247 and custom VIF texts below 128 bytes.
- RecordPacker.PackFrameData: requires the data to fit into the frame, which the original does not check.
- Port.SerialReceive: one pending stream; bytes that arrive while a read waits are part of the script's read sizes only.
- Scan.SearchIsComplete: on an ideal bus, where every select arrives, a single answer arrives unchanged, overlapping acknowledgements read as a collision or as one acknowledgement, and overlapping data telegrams never as one lone telegram; decimal IDs; no wildcard in the ID in front of the position of the call, which from position 0 is no restriction.
- ReadoutMaster.SendRecvRequest: no reply comes late, no garbled reply starts with a valid short or long telegram, every reply of the slave is a long or control telegram without a dangling record, a slave whose bit is set has sent a telegram, and sending never fails.
- Readout.TakenInOrder: a single master.
