# Verification of the uav-router stream filters

The stream filters of uav-router find MAVLink 1, RTCM 3, UBX and NMEA 0183 frames in a byte stream that arrives
in arbitrary chunks. A filter keeps a partial frame in a fixed array between calls of `write`, sends frames with
a valid checksum to `next` and every other byte to `rest`. When a checksum fails, it sends the head of the
candidate to `rest` and calls its own `write` on the tail of its own `packet` array, which that call overwrites
while it reads.

This project models the filters as classes over that array, with the same states, branches, stale lengths and
re-entrant calls, and proves each `write` against a specification without state: a greedy parser on the whole
input (`Parser.Parse`). From there it proves what the filters are for, on every input and under every chunking.

How the modules build on each other:

- `X25`, `Crc24Q`, `Crc24Division`, `Fletcher`, `NmeaSum`: the four checksums, as the program computes them and
  as independent reference definitions, with the loops proved against them.
- `Protocols`: the four framings as one question about the head of a byte string (`Judge`): no frame, unfinished,
  valid frame of n bytes, complete candidate of n bytes with a bad checksum.
- `Formats`, `Examples`: the same framings written out in numbers, without the filters' order of checks, and one
  published frame of each; `Judge` finds exactly the candidates and frames they describe.
- `Parser`: the greedy parser; parsing may stop anywhere and go on from what was held (`Resume`).
- `ParserLaws`, `NmeaLines`, `NmeaLaws`, `ChecksumLaws`, `Encoders`: conservation, shortcuts, no lost frame, residues,
  detected corruptions, round trips from encoded messages.
- `Filters`: endpoints, wiring, counters and the four filter classes; `Write` of each refines the parser step
  `Feed`, also when the buffer is the filter's own `packet`; then theorems on what the destinations of a wired
  network have received. Frames and rest bytes leave through real references to other endpoints, depth first, as in
  the program.
- `Chain`, `MixedStreams`: what a chain linked through `rest` computes, as a function of its whole input, and what it
  makes of frames of several protocols in one stream.
- `FeedLaws`, `FilterTotals`: one lemma for each kind of step, and what the counters stand for.
- `RateLimits`, `MavlinkFilters`: the per-message rate limit. `Hexes`: the hex dump and a reader that inverts it.

Two points where the code differs from what its form suggests; the model follows the code.

- The NMEA state that expects LF does not consume the byte it looks at (`src/filters/nmea.h:76-90`). The LF of a
  complete sentence is part of the frame sent to `next` and is then seen again as stream data, so it also reaches
  `rest`. `Protocol.Keep` says so, and the NMEA laws account for it.
- A failed NMEA checksum is counted after the replay, that of the others before it. `FeedLaws.FeedCount` shows that
  the outcome is the same.

The rate limit holds for any sequence of clock readings, not only for a clock that never goes back.

## Model

| member | source | states |
|---|---|---|
| X25.Calculate | src/filters/mavlink1.h:22-28 | the loop over the slice leaves what the bit-serial register, started at 0xffff, leaves |
| X25.CheckValue | src/filters/mavlink1.h:14-28 | the published check value: "123456789" leaves 0x6F91 |
| X25.CrcFromConcat | src/filters/mavlink1.h:22-28 | a message may be checksummed in two parts |
| X25.AccumulateIsBitSerial | src/filters/mavlink1.h:16-20 | the shift and XOR form equals eight steps of a shift register with reflected polynomial 0x8408, for every register and byte |
| X25.CrcIsBitSerial | src/filters/mavlink1.h:16-28 | the same for messages of any length |
| X25.Residue | src/filters/mavlink1.h:137-142 | two more bytes clear the register if and only if they are the register, low byte first |
| X25.AccumulateLinear | src/filters/mavlink1.h:16-20 | the XOR of two registers and the XOR of two bytes go through a step on their own |
| X25.CrcLinear | src/filters/mavlink1.h:22-28 | for messages of any length the register of the differences is the difference of the registers |
| X25.ZeroBytes | src/filters/mavlink1.h:22-28 | zero bytes keep a zero register zero and make no other zero |
| X25.AccumulateInjective | src/filters/mavlink1.h:16-20 | a step never merges two different registers |
| X25.TwoBytesInjective | src/filters/mavlink1.h:16-20 | two bytes can be read off the register after them |
| X25.SameSuffix | src/filters/mavlink1.h:22-28 | a common suffix cannot make two different registers equal |
| X25.Burst | src/filters/mavlink1.h:22-28 | two different messages of one length that agree outside two consecutive bytes have different checksums |
| Crc24Q.Calculate | src/filters/rtcm3.h:9-23 | the nested loops compute the checksum of the slice |
| Crc24Q.CheckValue | src/filters/rtcm3.h:9-23 | the published check value: "123456789" leaves 0xCDE703 |
| Crc24Q.CrcFromConcat | src/filters/rtcm3.h:9-23 | a message may be checksummed in two parts |
| Crc24Q.ShiftManyLinear | src/filters/rtcm3.h:13-19 | any number of shift steps is linear over XOR |
| Crc24Q.ShiftManyKernel | src/filters/rtcm3.h:13-19 | on 24-bit registers only zero is shifted to zero |
| Crc24Q.ShiftManyInjective | src/filters/rtcm3.h:13-19 | shifting never merges two different 24-bit registers |
| Crc24Q.AddByteIsShifts | src/filters/rtcm3.h:11-20 | a turn of the outer loop is: byte added to the top, then eight shifts of the whole register |
| Crc24Q.CrcIsWord | src/filters/rtcm3.h:9-23 | the register stays below 2^24 |
| Crc24Q.Residue | src/filters/rtcm3.h:93-98 | three more bytes clear the register if and only if they are the register, high byte first |
| Crc24Q.SameSuffix | src/filters/rtcm3.h:9-23 | a common suffix cannot make two different registers equal |
| Crc24Q.Burst | src/filters/rtcm3.h:9-23 | two different messages of one length that agree outside three consecutive bytes have different checksums |
| Crc24Division.CrcIsShiftedRemainder | src/filters/rtcm3.h:9-23 | the register is the long-division remainder of the message bits moved up by 24 places |
| Crc24Division.CrcIsRemainder | src/filters/rtcm3.h:9-23 | `crc24` is the bit-serial remainder by 0x1864CFB of the message followed by 24 zero bits, below 2^24 |
| Crc24Division.ZeroIffDivisible | src/filters/rtcm3.h:9-23 | the checksum is zero exactly when the polynomial divides the message |
| Fletcher.Calculate | src/filters/ubx.h:88-94 | the loop leaves the two accumulators of the slice |
| Fletcher.ClosedForm | src/filters/ubx.h:88-94 | the accumulators are the byte sum and the sum of (n-i) times byte i, both mod 256 |
| Fletcher.ChangeNoticed | src/filters/ubx.h:88-97 | changing one covered byte changes the first accumulator |
| Fletcher.SwapNoticed | src/filters/ubx.h:88-97 | swapping two different neighbours keeps the first accumulator and changes the second |
| NmeaSum.Calculate | src/filters/nmea.h:97-100 | the loop leaves the XOR of the body |
| NmeaSum.XorIsParity | src/filters/nmea.h:97-100 | each bit of the XOR is the parity of that bit over the body |
| NmeaSum.XorConcat | src/filters/nmea.h:97-100 | the XOR of a body is that of its parts |
| NmeaSum.DigitIs | src/filters/nmea.h:101-102 | the digits are those of "0123456789abcdef" and "0123456789ABCDEF", each worth its place, and no other characters |
| NmeaSum.StrtolIsStrtol | src/filters/nmea.h:101-102 | on two characters the number read is that of C `strtol` in base 16, defined for strings of any length: white space, sign, 0x, digits |
| NmeaSum.StrtolReads | src/filters/nmea.h:101-102 | every number below 256 is read back from two digits, each in either case |
| NmeaSum.HexChar | src/filters/nmea.h:101-102 | a digit of either table reads as its place |
| ChecksumLaws.MavlinkResidue | src/filters/mavlink1.h:137-142 | a frame is valid exactly when the bit-serial register, started at 0xffff, is cleared by the covered bytes, the extra byte and the checksum bytes |
| ChecksumLaws.MavlinkBurst | src/filters/mavlink1.h:137-142 | of two different frames that differ inside two consecutive bytes at most one is valid; with a table, message id aside and the pair of last payload byte and first checksum byte aside |
| ChecksumLaws.MavlinkBoundary | src/filters/mavlink1.h:137-142 | that pair exactly: a frame that agrees with a valid one outside it is valid if and only if it is the same or differs by 0x91 and 0x85 |
| ChecksumLaws.MavlinkDifference | src/filters/mavlink1.h:137-142 | for any change that leaves preamble and length alone: a frame is valid next to a valid one if and only if the differences of the covered bytes, extra byte included, leave a zero register zero |
| ChecksumLaws.MavlinkIdChange | src/filters/mavlink1.h:137-142 | a changed message id goes unnoticed if and only if its trace after the payload is the difference of the two table entries |
| ChecksumLaws.RtcmResidue | src/filters/rtcm3.h:93-98 | for every payload length a frame is valid exactly when `crc24` of all of it is zero, which is when 0x1864CFB divides it |
| ChecksumLaws.RtcmBurst | src/filters/rtcm3.h:93-98 | of two different frames that differ inside three consecutive bytes at most one is valid |
| ChecksumLaws.UbxChange | src/filters/ubx.h:88-97 | a valid frame with any one byte changed is no longer a valid frame; preamble and length bytes aside, it is a complete candidate that fails |
| ChecksumLaws.UbxSwap | src/filters/ubx.h:88-97 | nor is one with two different neighbouring covered bytes swapped, the length bytes included |
| ChecksumLaws.NmeaChange | src/filters/nmea.h:95-103 | a valid sentence with any one byte changed stays valid if and only if the byte is one of its two digits, the digits still read as the same number, and no CR was put in |
| Protocols.CandidateShape | src/filters/nmea.h:76-90 | for all four protocols: a candidate starts with the preamble, is longer than what is seen again, and no preamble is seen again |
| Protocols.JudgeWhole | src/filters/mavlink1.h:122-125 | a candidate that is exactly complete is judged by its checksum |
| Protocols.ExtentStable | src/filters/ubx.h:43-65 | a known frame length does not change with more input |
| Protocols.JudgeStable | src/filters/mavlink1.h:88-134 | more input never changes a verdict once reached |
| Parser.Progress | src/filters/mavlink1.h:122-131 | every step of the parser lowers the number of preambles left, or keeps it and shortens the input |
| Parser.Resume | src/filters/mavlink1.h:85-136 | parsing a ++ b is parsing a, then what a held followed by b |
| Parser.FeedSplit | src/filters/mavlink1.h:85-136 | two chunks written one after the other do what their concatenation does |
| Parser.RunOneMore | src/filters/mavlink1.h:85-136 | a run grows by one step for each call |
| Parser.HeldWaits | src/filters/mavlink1.h:115-131 | what is held is an unfinished candidate, and parsing it again holds exactly it |
| Parser.ChunkIndependence | src/filters/mavlink1.h:85-136 | however the input is cut into chunks, the run is the parse of the whole input; for all four protocols |
| ParserLaws.JunkPrefix | src/filters/rtcm3.h:41-53 | bytes before the next preamble pass to rest unchanged, whatever follows |
| ParserLaws.FrameHead | src/filters/mavlink1.h:122-127 | a valid frame at the head is sent whole, and parsing goes on behind it |
| ParserLaws.BadHead | src/filters/mavlink1.h:128-131 | a bad candidate loses its first byte, and parsing goes on with its second |
| ParserLaws.UbxTwoByteResync | src/filters/ubx.h:78-80 | dropping both preamble bytes equals dropping one and looking again |
| ParserLaws.NmeaWholeCandidate | src/filters/nmea.h:87-89 | sending a candidate without LF to rest whole equals dropping it byte by byte, with every `$` inside it looked at again |
| ParserLaws.Conservation | src/filters/rtcm3.h:36-92 | output in emission order followed by the held bytes is exactly the input (MAVLink, RTCM3, UBX) |
| ParserLaws.LengthLaw | src/filters/nmea.h:76-90 | bytes out plus bytes held are bytes in, plus one LF for each complete sentence; all four protocols |
| ParserLaws.RestAndFrames | src/filters/filterbase.h:11-19 | bytes out are bytes to rest plus bytes in frames |
| ParserLaws.PreamblesInRest | src/filters/mavlink1.h:128-129 | MAVLink and RTCM3: the preambles in the rest stream are as many as the failed checksums |
| ParserLaws.NoFrameLost | src/filters/mavlink1.h:88-133 | a valid frame complete at position i is emitted at i, or i is strictly inside an earlier emitted frame, or strictly inside the held candidate (MAVLink, RTCM3, UBX) |
| ParserLaws.HeadIsValid | src/filters/mavlink1.h:122-125 | a frame found at the head of the input is valid on its own |
| ParserLaws.OnlyValidFrames | src/filters/mavlink1.h:124-126 | what reaches next is a whole valid frame and nothing else; all four protocols |
| ParserLaws.ParsePiece | src/filters/ubx.h:20-87 | junk and a well-formed frame at the head give exactly their events, whatever follows |
| ParserLaws.RoundTrip | src/filters/mavlink1.h:85-142 | well-formed frames with preamble-free junk between them come out as exactly those frames and that junk, nothing held, no bad checksum |
| ParserLaws.RoundTripRun | src/filters/ubx.h:20-97 | the same for a run, under every chunking; all four protocols |
| NmeaLines.SentenceParts | src/filters/nmea.h:71-90 | a judged sentence is at least three bytes and ends with its first CR and an LF |
| NmeaLines.NothingHeld | src/filters/nmea.h:76-90 | an input that ends its line leaves nothing held; so the replay of a failed sentence ends in state BEFORE |
| NmeaLaws.NmeaConservation | src/filters/nmea.h:19-94 | LFs aside, output in emission order followed by the held bytes is exactly the input |
| NmeaLaws.RepeatsIffEnded | src/filters/nmea.h:76-90 | an LF is repeated if and only if the input holds a 0x24 whose first 0x0D comes within 1022 bytes and is followed by 0x0A |
| NmeaLaws.PlainConservation | src/filters/nmea.h:76-90 | plain byte conservation holds for an input if and only if it holds no such line |
| NmeaLaws.NotConserved | src/filters/nmea.h:76-90 | a concrete input, `$ab` CR LF, that is not conserved |
| NmeaLaws.ShortCandidates | src/filters/nmea.h:95-96 | a judged candidate has fewer than five bytes if and only if its line is `$` CR LF or `$`, one byte, CR LF: the inputs for which the program reads before its array; the specification lets them fail |
| NmeaLaws.NoSentenceLost | src/filters/nmea.h:19-94 | a valid sentence anywhere in the input is emitted alone, or as the end of a longer valid sentence that an earlier `$` on its line begins, and the frames after it are those of the input behind it |
| NmeaLaws.SentencesInOrder | src/filters/nmea.h:19-94 | valid sentences that follow each other in the input, whatever lies between, are found in that order among the frames, each as a frame of its own |
| FeedLaws.FeedCount | src/filters/nmea.h:82-86 | counting a failed checksum before or after the replay gives the same outcome |
| FeedLaws.FeedPreamble | src/filters/rtcm3.h:41-59 | junk up to a preamble goes to rest and the preamble is held |
| FeedLaws.FeedBadSentence | src/filters/nmea.h:82-86 | a failed sentence is its `$` to rest, its tail fed again, then the stream from its LF on |
| FeedLaws.FeedBrokenSentence | src/filters/nmea.h:87-89 | a candidate whose CR is not followed by LF leaves for rest, then the stream goes on |
| FeedLaws.FeedUbxBadDone | src/filters/ubx.h:78-80 | the two-byte resync keeps the specification's outcome |
| FeedLaws.NmeaTooLong | src/filters/nmea.h:45-65 | no frame starts at a `$` whose line has more than 1022 bytes before its CR, so it may be dropped as soon as that shows |
| Formats.CandidateFound | src/filters/mavlink1.h:115-142 | the verdict on a head, against the four framings written out in numbers: a valid frame (or one that fails) of n bytes is found if and only if the first n bytes are one |
| Formats.WaitingFor | src/filters/ubx.h:43-74 | a head is held if and only if it is no candidate yet and some bytes would make it one; all four protocols |
| Formats.ChecksIsSound | src/filters/rtcm3.h:93-98 | the checksum each filter computes is the one of the written-out framing: bit-serial register, division by 0x1864CFB, the two byte sums, the XOR that `strtol` reads |
| Formats.ExtentIsComplete | src/filters/rtcm3.h:60-72 | a candidate has exactly the preamble, length field and line end of a whole frame |
| Formats.FramesOnTheWire | src/filters/ubx.h:23-85 | every frame sent to next has the bytes of a whole valid frame: UBX 0xB5 0x62, MAVLink 0xFE, RTCM3 0xD3, NMEA 0x24 to 0x0D 0x0A |
| Examples.Heartbeat | src/filters/mavlink1.h:115-142 | a published MAVLink heartbeat is a frame |
| Examples.EmptyMessage | src/filters/rtcm3.h:71-98 | the empty RTCM3 message D3 00 00 47 EA 4B is a frame |
| Examples.Poll | src/filters/ubx.h:66-97 | the UBX poll B5 62 0A 04 00 00 0E 34 is a frame |
| Examples.Sentence | src/filters/nmea.h:76-103 | $PUBX,00*33 is a sentence |
| Encoders.MavlinkAccepted | src/filters/mavlink1.h:137-142 | every encoded message is a frame the filter accepts, with ids and payload recovered; payloads up to 255 bytes, every table |
| Encoders.RtcmLength | src/filters/rtcm3.h:66-69 | every payload length below 1024 is read back from its two bytes |
| Encoders.RtcmAccepted | src/filters/rtcm3.h:93-98 | the same for every RTCM3 payload below 1024 bytes |
| Encoders.UbxAccepted | src/filters/ubx.h:88-97 | the same for every UBX class, id and payload below 65536 bytes behind 0xB5 0x62 |
| Encoders.NmeaAccepted | src/filters/nmea.h:95-103 | the same for every NMEA body without CR that leaves room in 1022 bytes, with the two digits in either case |
| StatObj.StatCounters.constructor | src/impl/statobj.h:86-89 | no counters yet |
| StatObj.StatCounters.Add | src/impl/statobj.h:80-84 | the named counter grows and is marked changed, created when missing; all others stay |
| FilterTotals.TotalsNext | src/filters/filterbase.h:11-15 | one more frame adds its length to the bytes sent on and one to the frames |
| FilterTotals.TotalsRest | src/filters/filterbase.h:16-19 | bytes to rest add their number to the rest total only |
| Bytes.MemChr | src/filters/mavlink1.h:91-91 | the first occurrence in the slice, or its end |
| Bytes.MemMove | src/filters/mavlink1.h:118-118 | the destination gets the bytes the source held before the call, also when both overlap in one array |
| Filters.Endpoint.ToSink | src/inc/endpoints.h:34-37 | an endpoint outside the model records what is written to it; a route may end there |
| Filters.Endpoint.OfMavlink | src/inc/endpoints.h:34-37 | a fresh MAVLink filter behind an endpoint; its route is the filter with its `next`, followed by what its `rest` reaches |
| Filters.Endpoint.OfRtcm | src/inc/endpoints.h:34-37 | the same for RTCM3 |
| Filters.Endpoint.OfUbx | src/inc/endpoints.h:34-37 | the same for UBX |
| Filters.Endpoint.OfNmea | src/inc/endpoints.h:34-37 | the same for NMEA |
| Filters.Endpoint.Write | src/inc/endpoints.h:34-37 | the virtual call: one more write is recorded, the filter behind it has again the outcome of its run over all writes, and all wiring is as it was |
| Filters.Endpoint.Record | src/inc/endpoints.h:34-37 | an endpoint outside the model records the write |
| Filters.Endpoint.WriteMavlink | src/inc/endpoints.h:34-37 | the call as it reaches a MAVLink filter |
| Filters.Endpoint.WriteRtcm | src/inc/endpoints.h:34-37 | the same for RTCM3 |
| Filters.Endpoint.WriteUbx | src/inc/endpoints.h:34-37 | the same for UBX |
| Filters.Endpoint.WriteNmea | src/inc/endpoints.h:34-37 | the same for NMEA |
| Filters.FilterBase.constructor | src/filters/filterbase.h:5-10 | no output, no wiring, all counters zero |
| Filters.FilterBase.ChainTo | src/inc/endpoints.h:131-132 | from now on the endpoint, or none, receives exactly the frames, one write each; `rest` stays as it was |
| Filters.FilterBase.Own | src/inc/endpoints.h:131-132 | what is behind an endpoint becomes part of the filter, nothing else changes |
| Filters.FilterBase.RestTo | src/inc/endpoints.h:144-145 | from now on the endpoint, or none, receives exactly the bytes that are in no frame; `next` stays as it was |
| Filters.FilterBase.LinkRest | src/inc/endpoints.h:144-145 | the same for an endpoint the filter already owns |
| Filters.FilterBase.CountNext | src/filters/filterbase.h:12-13 | bytes and frame are counted, the other counters stay |
| Filters.FilterBase.CountRest | src/filters/filterbase.h:17-17 | bytes to rest are counted, the other counters stay |
| Filters.FilterBase.SendNext | src/inc/endpoints.h:134-138 | the frame is put out, and reaches `next` when there is one, with the wiring below valid again |
| Filters.FilterBase.SendRest | src/inc/endpoints.h:147-152 | the bytes are put out, and reach `rest` when there is one, with the wiring below valid again |
| Filters.FilterBase.WriteNext | src/filters/filterbase.h:11-15 | one more frame event; `next` and `pack` are the only counters that change, all four still mirror the events, both endpoints still match them |
| Filters.FilterBase.WriteRest | src/filters/filterbase.h:16-19 | one more rest event for each byte; `rest` is the only counter that changes, counters and endpoints still match |
| Filters.FilterBase.CountOther | src/impl/statobj.h:80-84 | a counter of another name grows by one and no other changes |
| Filters.FilterBase.CountBad | src/filters/mavlink1.h:128-128 | a failed checksum is counted and nothing else changes |
| Filters.MavlinkV1.constructor | src/filters/mavlink1.h:143-149 | nothing put out, nothing held |
| Filters.MavlinkV1.ValidChecksum | src/filters/mavlink1.h:137-142 | true exactly for a valid frame in the packet, with or without a table of extra bytes |
| Filters.MavlinkV1.HeldWaiting | src/filters/mavlink1.h:108-121 | in every state the held bytes are an unfinished candidate, although `packet_len` is stale in state LEN |
| Filters.MavlinkV1.Start | src/filters/mavlink1.h:103-106 | exactly the preamble is held, and the packet is unchanged behind its first byte |
| Filters.MavlinkV1.OnBefore | src/filters/mavlink1.h:90-107 | the bytes consumed went through the specification, the buffer is unchanged beyond them |
| Filters.MavlinkV1.OnLen | src/filters/mavlink1.h:108-114 | the same for the length byte |
| Filters.MavlinkV1.Fill | src/filters/mavlink1.h:117-121 | the bytes are appended to the held ones, header bytes and the buffer beyond stay, also within one array |
| Filters.MavlinkV1.OnLoad | src/filters/mavlink1.h:115-132 | the same for a copied part, including the judgement and replay it may set off |
| Filters.MavlinkV1.WholeCandidate | src/filters/mavlink1.h:116-124 | the specification finds the same complete candidate in the packet |
| Filters.MavlinkV1.Complete | src/filters/mavlink1.h:122-131 | judging a full packet equals the specification on its bytes, holds fewer bytes than it had, leaves the packet behind it alone |
| Filters.MavlinkV1.Resync | src/filters/mavlink1.h:129-130 | replaying through the same array equals replaying a saved copy of the tail, and never touches the packet beyond the slice |
| Filters.MavlinkV1.Step | src/filters/mavlink1.h:88-134 | one turn of the loop consumes input and follows the specification on it |
| Filters.MavlinkV1.Write | src/filters/mavlink1.h:85-136 | a call has exactly the specification's outcome on the slice (events, held bytes, failed checksums), also on the filter's own packet, and terminates |
| Filters.RtcmV3.constructor | src/filters/rtcm3.h:102-107 | nothing put out, nothing held |
| Filters.RtcmV3.ValidChecksum | src/filters/rtcm3.h:93-98 | true exactly for a valid frame in the packet |
| Filters.RtcmV3.HeldWaiting | src/filters/rtcm3.h:60-77 | in every state the held bytes are an unfinished candidate |
| Filters.RtcmV3.Start | src/filters/rtcm3.h:54-58 | exactly the preamble is held, and the packet is unchanged behind its first byte |
| Filters.RtcmV3.OnBefore | src/filters/rtcm3.h:41-59 | the bytes consumed went through the specification, the buffer is unchanged beyond them |
| Filters.RtcmV3.OnHeader | src/filters/rtcm3.h:60-70 | the same for the header bytes, with the ten-bit length read from them |
| Filters.RtcmV3.Fill | src/filters/rtcm3.h:73-77 | the bytes are appended to the held ones, header bytes and the buffer beyond stay, also within one array |
| Filters.RtcmV3.OnLoad | src/filters/rtcm3.h:71-88 | the same for a copied part, including the judgement and replay it may set off |
| Filters.RtcmV3.WholeCandidate | src/filters/rtcm3.h:72-80 | the specification finds the same complete candidate in the packet |
| Filters.RtcmV3.Complete | src/filters/rtcm3.h:78-87 | judging a full packet equals the specification on its bytes and holds fewer bytes than it had |
| Filters.RtcmV3.Resync | src/filters/rtcm3.h:84-85 | replaying through the same array equals replaying a saved copy of the tail |
| Filters.RtcmV3.Step | src/filters/rtcm3.h:39-90 | one turn of the loop consumes input and follows the specification on it |
| Filters.RtcmV3.Write | src/filters/rtcm3.h:36-92 | a call has exactly the specification's outcome on the slice, also on the filter's own packet, and terminates |
| Filters.UbxFilter.constructor | src/filters/ubx.h:101-106 | nothing put out, nothing held |
| Filters.UbxFilter.ValidChecksum | src/filters/ubx.h:88-97 | true exactly for a valid frame in the packet |
| Filters.UbxFilter.HeldWaiting | src/filters/ubx.h:43-72 | in every state the held bytes are an unfinished candidate, although the lengths are stale in state PREAMBLE |
| Filters.UbxFilter.Start | src/filters/ubx.h:38-41 | exactly the preamble is held, and the packet is unchanged behind its first byte |
| Filters.UbxFilter.OnBefore | src/filters/ubx.h:25-42 | the bytes consumed went through the specification, the buffer is unchanged beyond them |
| Filters.UbxFilter.OnPreamble | src/filters/ubx.h:43-54 | a wrong second byte consumes nothing and sends the first to rest; what is still to do has the same outcome, and the loop measure falls |
| Filters.UbxFilter.OnHeader | src/filters/ubx.h:55-65 | header bytes are held, with the little-endian length read from them |
| Filters.UbxFilter.Fill | src/filters/ubx.h:68-72 | the bytes are appended to the held ones, header bytes and the buffer beyond stay, also within one array |
| Filters.UbxFilter.OnLoad | src/filters/ubx.h:66-83 | a copied part follows the specification, including the judgement and replay it may set off |
| Filters.UbxFilter.WholeCandidate | src/filters/ubx.h:67-75 | the specification finds the same complete candidate in the packet |
| Filters.UbxFilter.Complete | src/filters/ubx.h:73-82 | judging a full packet equals the specification on its bytes and holds fewer bytes than it had |
| Filters.UbxFilter.Resync | src/filters/ubx.h:79-80 | both preamble bytes to rest, and replaying through the same array equals replaying a saved copy of what follows them |
| Filters.UbxFilter.Step | src/filters/ubx.h:23-85 | one turn of the loop keeps the outcome of what is still to do and lowers twice the input left plus the bytes held |
| Filters.UbxFilter.Write | src/filters/ubx.h:20-87 | a call has exactly the specification's outcome on the slice, also on the filter's own packet, and terminates |
| Filters.NmeaFilter.constructor | src/filters/nmea.h:104-108 | nothing put out, nothing held |
| Filters.NmeaFilter.ValidChecksum | src/filters/nmea.h:95-103 | true exactly for a valid sentence in the packet; too short a candidate fails |
| Filters.NmeaFilter.HeldWaiting | src/filters/nmea.h:43-75 | the held bytes are an unfinished sentence, at most 1022 bytes before their CR |
| Filters.NmeaFilter.Start | src/filters/nmea.h:37-41 | exactly the `$` is held, and the packet is unchanged behind its first byte |
| Filters.NmeaFilter.OnBefore | src/filters/nmea.h:24-42 | the bytes consumed went through the specification, the buffer is unchanged beyond them |
| Filters.NmeaFilter.OnCr | src/filters/nmea.h:43-75 | whether the sentence fits or is given up early, what is still to do has the same outcome, and the loop measure falls |
| Filters.NmeaFilter.Take | src/filters/nmea.h:52-74 | the bytes up to the CR, and the CR, went through the specification |
| Filters.NmeaFilter.GiveUp | src/filters/nmea.h:46-65 | dropping the `$` as soon as a chunk shows that the sentence cannot fit, and replaying the rest from the packet, keeps the outcome of what is still to come |
| Filters.NmeaFilter.Collect | src/filters/nmea.h:52-70 | bytes without CR are held and nothing is put out |
| Filters.NmeaFilter.CloseLine | src/filters/nmea.h:71-74 | the CR is held too |
| Filters.NmeaFilter.WholeSentence | src/filters/nmea.h:78-80 | the specification finds the same complete sentence in the packet |
| Filters.NmeaFilter.SentenceReplay | src/filters/nmea.h:82-86 | the replay of a failed sentence leaves nothing held |
| Filters.NmeaFilter.OnLf | src/filters/nmea.h:76-90 | nothing is consumed, nothing stays held, what is still to do has the same outcome: with and without LF |
| Filters.NmeaFilter.Judged | src/filters/nmea.h:78-86 | the same for a complete sentence, valid or not, with the failure counted after the replay |
| Filters.NmeaFilter.Resync | src/filters/nmea.h:83-84 | replaying through the same array equals replaying a saved copy of the tail |
| Filters.NmeaFilter.Step | src/filters/nmea.h:22-92 | one turn of the loop keeps the outcome of what is still to do and lowers twice the input left plus the bytes held |
| Filters.NmeaFilter.Write | src/filters/nmea.h:19-94 | a call has exactly the specification's outcome on the slice, also on the filter's own packet, and terminates |
| Filters.NetworkRun | src/inc/endpoints.h:129-154 | each filter along `rest` of a wired network has the outcome of the chain's parse of the whole input, whatever the chunks |
| Filters.BelowRun | src/inc/endpoints.h:142-154 | the same for the filters below one, on what it let through |
| Filters.NetworkDelivery | src/inc/endpoints.h:129-154 | delivery in a wired network, whatever was written in whatever chunks: the k-th destination of frames has received exactly the frames of the k-th stage of the parse of the whole input, and the last endpoint exactly the final rest stream |
| Filters.DeliveryBelow | src/inc/endpoints.h:142-154 | the same for a filter and the stages below it, on what it parsed |
| Filters.OwnServed | src/inc/endpoints.h:131-138 | a destination wired before the first output has received exactly the frames put out |
| Filters.NetworkRoundTrip | others/config.yml:115-130 | frames of several protocols in one stream, with junk between them, each let through by the stages before its own: every destination has received exactly the frames of its own stage |
| Filters.OnlyValidDelivered | src/inc/endpoints.h:129-140 | since they were wired the destinations of a network have received valid frames of their protocol and nothing else |
| Filters.SameOutcomes | src/inc/endpoints.h:129-154 | two networks with the same filters and the same input agree at every stage, however the input was cut |
| Filters.NetworkConservation | src/inc/endpoints.h:129-154 | frame bytes of all stages, bytes held by all stages and the final rest stream add up to the bytes written, and the repeated LFs |
| Filters.FilterRun | src/inc/endpoints.h:129-154 | a filter behind an endpoint has parsed all that was written to it |
| Filters.FramesDelivered | src/inc/endpoints.h:131-138 | an endpoint wired as `next` from the start has received exactly the frames of the parse, one write each; `Endpoint.Write` keeps what this asks for |
| Filters.RestDelivered | src/inc/endpoints.h:144-152 | an endpoint wired as `rest` from the start has received exactly the rest stream of the parse; `Endpoint.Write` keeps what this asks for |
| Filters.Accounting | src/filters/filterbase.h:11-19 | `next` + `rest` + held bytes are the bytes written (and repeated LFs), `pack` counts the frames, `badcrc` the failures; for MAVLink and RTCM3 also the preambles in the rest stream |
| Filters.NewUbx | src/inc/endpoints.h:129-154 | both endpoints are wired to the filter; the route is UBX delivering to `next`, followed by the route of `rest`, if that has received nothing yet |
| Filters.NewRtcm | src/inc/endpoints.h:129-154 | the same for RTCM3 |
| Filters.NewNmea | src/inc/endpoints.h:129-154 | `next` is wired to the filter; the route is NMEA delivering to it |
| Filters.RouteRest | others/config.yml:115-130 | the example route: UBX, RTCM3 and NMEA in that order, each delivering to its own destination, nothing written yet |
| Filters.RouteDelivery | others/config.yml:115-130 | after any writes the three destinations have received exactly the frames of the first, second and third parse |
| Filters.RouteInTwo | others/config.yml:115-130 | the route built and used: a buffer written in two chunks, cut anywhere, leaves at the three destinations the frames of the whole buffer |
| Chain.ChainConservation | src/inc/endpoints.h:129-154 | for every list of protocols and every input: bytes taken by all stages plus the final rest stream are the bytes in, and the repeated LFs |
| Chain.OnlyValidInChain | src/inc/endpoints.h:129-154 | every stage of a chain puts out valid frames of its protocol only |
| Chain.NoRepeats | others/config.yml:115-130 | without an NMEA stage nothing is repeated |
| MixedStreams.ItemParse | src/inc/endpoints.h:142-154 | a stage takes a frame of its own and passes on any other item, whatever follows |
| MixedStreams.UnnoticedIff | src/inc/endpoints.h:142-154 | a stage lets bytes through whole if and only if they give no frame, leave nothing held and repeat no LF; candidates inside that fail do not matter |
| MixedStreams.PreambleFree | src/filters/ubx.h:25-31 | bytes without its preamble are let through, and no checksum fails |
| MixedStreams.UnnoticedParse | src/inc/endpoints.h:142-154 | bytes that are let through leave what follows them as it would be without them |
| MixedStreams.NoFailures | src/inc/endpoints.h:142-154 | without a preamble in the items of later stages no checksum fails at a stage |
| MixedStreams.StageParse | src/inc/endpoints.h:142-154 | a stage takes exactly its frames out of a mixed stream and passes on the others, with nothing held; the failed checksums are those inside the others |
| MixedStreams.MixedRoundTrip | others/config.yml:115-130 | frames of several protocols with junk between them, each let through by the stages before its own, come out each at its own stage and in order; what is left is the junk and the LFs of sentences |
| RateLimits.Spacing | src/filters/mavlink1.h:256-267 | in every run forwarded messages with one id are at least its period apart, the first as far from the epoch |
| RateLimits.NextSend | src/filters/mavlink1.h:256-267 | a forwarded message becomes the last one sent with its id, any other leaves the times as they read |
| RateLimits.Refusal | src/filters/mavlink1.h:237-268 | which counter a refused message belongs to: the first of the three rules, in their order, that stops it; none if and only if it passes |
| RateLimits.FarApart | src/filters/mavlink1.h:256-267 | k messages further on at least k periods have passed |
| RateLimits.WindowBound | src/filters/mavlink1.h:256-267 | a window of length W holds at most W / period + 1 of them |
| RateLimits.FirstFrom | src/filters/mavlink1.h:256-267 | spaced times before a moment come first |
| RateLimits.RateLimited | src/filters/mavlink1.h:284-288 | both hold for every configured frequency from 1 to 10^9 with period 10^9/f, every run, every window, every system and message rule |
| RateLimits.ForwardedWhenDue | src/filters/mavlink1.h:237-268 | in every run a message is forwarded if and only if the rules let it through and it has no period or comes at least its period after the last one sent with its id |
| RateLimits.AlwaysForwarded | src/filters/mavlink1.h:256-259 | with no rules and no period every message is forwarded |
| RateLimits.PeriodIs | src/filters/mavlink1.h:284-288 | every configured frequency f, of either sign, gives the quotient of 10^9 by f with the remainder left out |
| RateLimits.TruncDivIs | src/filters/mavlink1.h:286-286 | the quotient leaves a remainder that is not negative and smaller than the divisor |
| RateLimits.NoRule | src/filters/mavlink1.h:238-238 | without system ids everything passes the system rule |
| RateLimits.SystemList | src/filters/mavlink1.h:239-247 | an allow list of system ids lets exactly those through, a deny list exactly the others |
| RateLimits.ComponentList | src/filters/mavlink1.h:240-247 | the same for component ids, whatever the system |
| RateLimits.PairList | src/filters/mavlink1.h:241-247 | a list of pairs names exactly those pairs of system and component |
| MavlinkFilters.MavlinkV1Filter.constructor | src/filters/mavlink1.h:289-296 | no rule, no limits; a run of calls starts |
| MavlinkFilters.MavlinkV1Filter.Start | src/filters/mavlink1.h:269-288 | a run of calls starts at the present configuration |
| MavlinkFilters.MavlinkV1Filter.SetOf | src/filters/mavlink1.h:273-274 | the loop collects exactly the ids |
| MavlinkFilters.MavlinkV1Filter.SetSysRule | src/filters/mavlink1.h:269-275 | the rule is exactly the new one |
| MavlinkFilters.MavlinkV1Filter.SetMsgRule | src/filters/mavlink1.h:277-282 | the message ids are exactly the new ones; `allow` changes the system rule, as in the program |
| MavlinkFilters.MavlinkV1Filter.SetFrequencies | src/filters/mavlink1.h:284-288 | every configured id gets its period, other ids keep theirs |
| MavlinkFilters.MavlinkV1Filter.Passed | src/filters/mavlink1.h:237-268 | true exactly when the system rule and the message rule let the message through and it is due by the stored times; remembers as the run specification does, counts a refusal under its own name and nothing else, and puts nothing out |
| MavlinkFilters.MavlinkV1Filter.Write | src/filters/mavlink1.h:230-236 | a message that the rules let through and that is due goes whole to next, any other whole to rest and is counted under its refusal; the run grows by this call |
| MavlinkFilters.MavlinkV1Filter.Send | src/filters/mavlink1.h:232-235 | one event for next, or one for rest for each byte |
| MavlinkFilters.RoutedFrames | src/filters/mavlink1.h:230-236 | the frames a run puts out on next are those of the forwarded calls, in order |
| MavlinkFilters.ForwardedTimes | src/filters/mavlink1.h:230-236 | their times, id by id, are those of the run the rate limit is about |
| MavlinkFilters.MavlinkV1Filter.RunLimited | src/filters/mavlink1.h:230-268 | the limit of the object's own run: of the frames it put out on next since its configuration (and delivered there, when `next` was wired at that time) those with one id are at least a period apart and at most W / period + 1 in any window of length W; the first is a period later than the last one before the configuration |
| Hexes.Hex.constructor | src/filters/hex.h:13-15 | nothing put out, nothing wired |
| Hexes.Hex.Row | src/filters/hex.h:35-42 | the two halves of a line |
| Hexes.Hex.Write | src/filters/hex.h:22-50 | the dump of the slice goes to next as one frame, counted like any other |
| Hexes.Hex.Print | src/filters/hex.h:22-47 | the loop builds the dump of the slice |
| Hexes.ReadBack | src/filters/hex.h:37-43 | hexadecimal columns read back as their bytes, whatever blanks follow |
| Hexes.LineReads | src/filters/hex.h:31-46 | a line has no break inside and its last 48 columns read as its bytes |
| Hexes.DumpReads | src/filters/hex.h:22-50 | reading the last 48 columns of every line recovers the input, and there is one line for every 16 bytes begun |
| Hexes.FrameReads | src/filters/hex.h:47-48 | the bytes sent to next, read as text, give the input back |
| Hexes.LineShows | src/filters/hex.h:31-46 | a line column by column: the offset in at least four digits, " : ", 17 characters of text with a dot for what is not printable, 48 of hexadecimal digits and blanks |
| Hexes.NumberReads | src/filters/hex.h:33-33 | the digits of an offset read back as it, with no zero in front |
| Hexes.DumpShows | src/filters/hex.h:22-50 | every line of a dump shows its sixteen bytes and their offset, in order |
| Hexes.FrameShows | src/filters/hex.h:47-48 | so do the lines of the frame sent to next |

## Left out

- ParserLaws.Conservation: stated for the three protocols that repeat nothing; for NMEA plain conservation is false, because the LF of a complete sentence leaves twice. `NmeaLaws.PlainConservation` says exactly when it holds; `NmeaLaws.NmeaConservation` and `ParserLaws.LengthLaw` hold always.
- ParserLaws.NoFrameLost: stated by position for the same three protocols; `NmeaLaws.NoSentenceLost` and `NmeaLaws.SentencesInOrder` are the law for NMEA.
- ParserLaws.PreamblesInRest: stated for MAVLink and RTCM3; a UBX preamble also reaches rest when its second byte is wrong, an NMEA `$` also when its line is broken or too long.
- MixedStreams.MixedRoundTrip: not for an item at whose end an earlier stage begins a candidate and waits: what comes of it depends on the bytes behind the item.
- Filters.NmeaFilter.ValidChecksum: the program reads before the start of a candidate shorter than five bytes (`src/filters/nmea.h:96`), where C++ gives no result; the model lets such a candidate fail, and `NmeaLaws.ShortCandidates` says exactly which inputs those are.
- Filters.Endpoint.Write: the classes a virtual call can reach are listed in `Target`; other `Writeable` classes are sinks that record what they get. The message filter and the hex dump are modelled on their own, not as targets.
- Filters.FilterBase.ChainTo: ownership is a tree: an endpoint behind which the filter itself stands, or one shared by two filters, is not modelled, nor is changing the wiring below an endpoint that is in use.
- Filters.FilterBase.RestTo: the same; an endpoint shared by `next` and `rest` of one filter is not modelled either.
- The message-id rule compares an iterator of one set with the end of another (`src/filters/mavlink1.h:250`), and C++ does not say how that comes out: the comparison is a parameter, as is the clock reading, and the results hold for every value of both.
- ChecksumLaws.MavlinkBurst: with a table not for a change of the message id, which also changes the extra byte, nor for the pair of bytes that the extra byte keeps apart; `ChecksumLaws.MavlinkIdChange`, `ChecksumLaws.MavlinkBoundary` and, for every change, `ChecksumLaws.MavlinkDifference` give the exact conditions.
- `isprint` in the hex dump is that of the C locale.
- The table of MAVLink extra bytes is a parameter of 256 bytes or absent; the default table (`src/filters/mavlink1.h:31-57`) is not written out, and every result holds for every table.
- Negative lengths; `int` overflow of the counters, which are unbounded integers here; the depth of the C++ stack (only that the recursion ends is proved).
- Return values of `write_next` and `write_rest`, which every filter ignores; `stat()` of the filters; `StatCounters::report`.
- Sockets, serial ports, timers, the event loop, name service, YAML configuration, logging and statistics output.
- `Destination` and `EndpointStore` fan-out, regular-expression routes, shell variable expansion.
