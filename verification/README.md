# A verified model of the SX1302 HAL's algorithms

This Dafny project models the parts of an ESP32 port of the Semtech SX1302 hardware abstraction layer
that compute something by themselves: parsing the receive FIFO, extending timestamps, merging duplicate
packets, the payload CRC, the GPS time reference, register fields and burst transfers over the SPI bus,
time on air and listen-before-talk. It proves what these parts are for, over all inputs and over whole
runs.

## Components

| files | what they model |
|---|---|
| `RxFrame`, `RxBuffer`, `RxStream` | the byte layout of a frame, fetch and pop on the buffer, and both together on a stream |
| `Receive`, `Queues`, `Delivery`, `Streams` | `lgw_receive` over fetch and parse, a queue of frames good and bad, and the runs of the receiver as runs of that queue |
| `Crc` | the CRC-16 XOR network as polynomial division |
| `Timestamp`, `PpsHistory`, `LegacyCorrection`, `PacketTime` | counter extension, the ring of PPS edges, the demodulation delay, and the count of a packet from all of them |
| `Merge` | duplicate removal in place and sorting |
| `Gps` | synchronisation and the four conversions |
| `Chip`, `BitOps`, `RegField`, `MemChunk` | a byte device, C's byte operators, register fields, chunked transfers |
| `Lora`, `TimeOnAir`, `Lbt`, `FreqDrift` | LoRa parameters, time on air, channel admission, the frequency-to-time-drift setting |
| `Bits` | machine words and their binary digits |

Code that changes state is modelled by classes and methods with loops, each proved against a
function of the old state; the properties are then proved of these functions. Bytes and words are
non-negative integers with explicit wrap-around. The payload CRC uses `char` data only through `>>` and
`& 1`, so its signedness does not matter. Doubles are reals in `Gps`; elsewhere the values are small
enough to be exact and are integers (quarter symbols in `TimeOnAir`). True time is an unbounded integer.

## What the code does that its callers may not expect

- `lgw_receive` returns all the packets it is asked for exactly when the frames it meets are all good
  (`Receive.CollectIff`, `Delivery.DeliversIff`). The first bad frame loses the packets parsed before it in
  the call (`Receive.FirstBadFrame`), and more:
  - A frame with a correct checksum whose modem, channel or spreading factor is out of range is never
    consumed: every later `lgw_receive` fails, and the FIFO is not read again (`Delivery.StuckForever`).
  - A frame that is cut off or has a wrong checksum also takes all frames behind it.
  - A packet refused for its payload CRC or its channel is consumed, and the call fails.
- Bytes behind the last frame of a fetch that do not start with the sync pair drop all frames fetched
  (`RxStream.TrailingBytesDropAll`).
- When a packet with a good CRC and one without CRC are the same, the good one can be dropped
  (`Merge.GoodPacketCanBeDropped`; exactly when, `Merge.DropsBetterIff` and `Merge.SurvivorsIff`).
- A count is converted to UTC and back to itself only if its true time is a whole number of nanoseconds;
  otherwise one is lost (`Gps.CntRoundTrip`, `Gps.CountIsLost`).
- With a crystal slower than 32 MHz, the fine timestamp of a packet can be taken against the edge before the
  last one (`PpsHistory.ReferenceIsLatestIff`, `PpsHistory.SlowCrystalMisleads`).
- A LoRa packet with an undefined coding rate is stamped without any correction
  (`PacketTime.LoraCountIsTrue`).
- `lgw_spi_wb` and `lgw_spi_rb` use one address for all pieces of a transfer, so they are right only up
  to 1024 bytes, which is all that the chunked memory functions ask of them (`MemChunk.SpiWritesWholeIff`).
- A packet at least 2^32 - 32e6 ticks older than the newest PPS edge is timed against that edge, although
  it comes later (`PpsHistory.TooOldIffMisled`).
- The comment on `idx` in the PPS history calls it the next slot to be written; in the code it is the slot
  written last, and the model follows the code.

## Model

| member | source | states |
|---|---|---|
| `RxFrame.DecodeEncode` | main/libloragw/loragw_sx1302_rx.c:43-69 | for every frame, reading back its encoding gives exactly its packet (payload, 20-bit signed offset, 32-bit little-endian timestamp, CRC, signed metrics, flags) and its unread bits |
| `RxFrame.EncodeDecode` | main/libloragw/loragw_sx1302_rx.c:226-364 | every byte string that a pop accepts is the encoding of what is read from it, so `Encode` and `Decode` are inverse |
| `RxFrame.EncodeIsAccepted` | main/libloragw/loragw_sx1302_rx.c:242-352 | every encoding of valid data passes all checks of a pop |
| `RxFrame.DecodeLength` | main/libloragw/loragw_sx1302_rx.c:248-255 | the length fields of a complete frame add up to its length |
| `RxFrame.HeadMacros` | main/libloragw/loragw_sx1302_rx.c:43-51 | the fields before the payload are the bits that the macros cut out, the frequency offset as a signed 20-bit number; the payload follows them |
| `RxFrame.FlagMacros` | main/libloragw/loragw_sx1302_rx.c:52-55 | the four flags are bits 0, 2, 3 and 4 of the byte behind the payload |
| `RxFrame.TailMacros` | main/libloragw/loragw_sx1302_rx.c:56-69 | the fields behind them: signed SNR, RSSI, the 32-bit timestamp and the CRC from the low byte up, signed metrics |
| `RxFrame.CheckByBytes` | main/libloragw/loragw_sx1302_rx.c:264-352 | for every frame as long as it says, with at most 127 pairs of metrics: the checks in terms of the raw bytes, literally: the checksum, the modem up to 17, and for modems up to 16 the channel up to 9 and a spreading factor of 5 to 12 |
| `RxFrame.FramedByBytes` | main/libloragw/loragw_sx1302_rx.c:242-255 | no other bytes are a frame that arrives: the lengths add up, and a frame with more pairs has a wrong checksum |
| `RxFrame.ChangedByteIsFound` | main/libloragw/loragw_sx1302_rx.c:264-277 | a frame with one changed byte, outside the sync word and the two length fields, has a wrong checksum |
| `RxBuffer.FramesLeftBound` | main/libloragw/loragw_sx1302_rx.c:196-215 | a header walk over at most 4096 bytes meets at most 179 frames, so the 8-bit counter cannot wrap |
| `RxBuffer.FirstSync` | main/libloragw/loragw_sx1302_rx.c:175-185 | the search gives the first sync pair within the fetched bytes, or the last position if there is none |
| `RxBuffer.WholeFrame` | main/libloragw/loragw_sx1302_rx.c:242-261 | a frame found whole is the bytes from the index on and lies inside the fetched bytes |
| `RxBuffer.Checksum` | main/libloragw/loragw_sx1302_rx.c:267-270 | the loop computes the byte sum modulo 256 |
| `RxBuffer.RxBuffer.constructor` | main/libloragw/loragw_sx1302_rx.c:100-111 | a new buffer is cleared and empty |
| `RxBuffer.RxBuffer.New` | main/libloragw/loragw_sx1302_rx.c:100-111 | clears array, size, index and counter |
| `RxBuffer.RxBuffer.Del` | main/libloragw/loragw_sx1302_rx.c:115-125 | resets size, index and counter and keeps the array |
| `RxBuffer.RxBuffer.Load` | main/libloragw/loragw_sx1302_rx.c:155-156 | the array holds the FIFO bytes, padded with zeros |
| `RxBuffer.RxBuffer.FindSync` | main/libloragw/loragw_sx1302_rx.c:175-185 | the loop finds `FirstSync` |
| `RxBuffer.RxBuffer.MoveUp` | main/libloragw/loragw_sx1302_rx.c:190-194 | the bytes from the sync word on move to the front, in place; those behind them stay |
| `RxBuffer.RxBuffer.CountFrames` | main/libloragw/loragw_sx1302_rx.c:196-215 | the loop adds the number of frames on the walk, or empties the buffer at a missing sync word |
| `RxBuffer.RxBuffer.Fetch` | main/libloragw/loragw_sx1302_rx.c:129-222 | the new state is `Fetched` of the old one, for any two level readings and FIFO bytes |
| `RxBuffer.RxBuffer.Front` | main/libloragw/loragw_sx1302_rx.c:236-261 | the header reads classify what is at the index: nothing, no sync word, a cut frame or a whole one |
| `RxBuffer.RxBuffer.Inspect` | main/libloragw/loragw_sx1302_rx.c:236-352 | the checks in their order give `PopOutcome` |
| `RxBuffer.RxBuffer.Pop` | main/libloragw/loragw_sx1302_rx.c:226-364 | result and new state are `PopOutcome` and `AfterPop` of the old state |
| `RxStream.FetchCounts` | main/libloragw/loragw_sx1302_rx.c:129-222 | after a fetch the counter is the number of frames on the walk from the index |
| `RxStream.CountBound` | main/libloragw/loragw_sx1302_rx.c:196-215 | a counted buffer holds at most 179 frames, and none exactly when the index has reached the size |
| `RxStream.PopCounts` | main/libloragw/loragw_sx1302_rx.c:226-364 | a successful pop keeps counter and walk in step and moves on by one frame; any other pop changes nothing; an empty buffer gives an error |
| `RxStream.FrontIff` | main/libloragw/loragw_sx1302_rx.c:242-261 | the header reads find a whole frame exactly when the unread bytes start with it |
| `RxStream.PopAcceptsEncodings` | main/libloragw/loragw_sx1302_rx.c:226-364 | a pop returns a packet if and only if the unread bytes start with the encoding of a frame with that packet |
| `RxStream.FetchStream` | main/libloragw/loragw_sx1302_rx.c:129-222 | junk without the sync pair followed by frames, good or bad: the fetch is inside the array and the buffer then holds exactly those frames |
| `RxStream.FetchAddsFrames` | main/libloragw/loragw_sx1302_rx.c:196-215 | on a buffer that still counts frames, the frames fetched are added to the count, modulo 256 |
| `RxStream.FetchWithoutFrame` | main/libloragw/loragw_sx1302_rx.c:167-188 | fewer than 23 bytes, or bytes without a sync pair, leave an empty buffer |
| `RxStream.TrailingBytesDropAll` | main/libloragw/loragw_sx1302_rx.c:198-202 | frames followed by bytes that do not start with the sync pair are all dropped |
| `RxStream.PopHeld` | main/libloragw/loragw_sx1302_rx.c:226-364 | a pop on a buffer that holds frames returns the first if it is acceptable and leaves the rest; a wrong checksum gives a warning, metadata out of range an error, and both leave everything |
| `RxStream.FramesRoundTrip` | main/libloragw/loragw_sx1302_rx.c:129-364 | one fetch of junk and any acceptable frames, then one pop each, gives their packets in order and ends with index = size and counter 0 |
| `RxStream.StreamRoundTrip` | main/libloragw/loragw_sx1302_rx.c:129-364 | the same for encoded frames: the packets come out exactly as they went in |
| `Receive.LoraStatusIff` | main/libloragw/loragw_sx1302.c:1960-1985 | channels 0 to 8, in terms of the flags and of polynomial division: exactly when a packet is reported with a bad, a good or no CRC, carrying the payload, modem, channel, CRC and stamp of the frame, and exactly when it is refused |
| `Receive.FskStatusIff` | main/libloragw/loragw_sx1302.c:2105-2118 | the same for channel 9, where the flags alone decide; higher channels are refused |
| `Receive.BurstInPayloadIsRefused` | main/libloragw/loragw_sx1302.c:1960-1985 | a packet with a good CRC is refused once a burst of up to 16 bits has changed its payload |
| `Receive.CollectIff` | main/libloragw/loragw_hal.c:1231-1251 | the loop returns all packets it is asked for exactly when, by the bytes of the buffer, each of the next n frames is whole, passes every check and is not refused; the buffer then starts behind them |
| `Receive.FirstBadFrame` | main/libloragw/loragw_hal.c:1231-1241 | the first bad frame ends the call and loses the packets before it: cut off or with a wrong checksum it empties the buffer, refused it is consumed, out of range it stays |
| `Receive.Hal.Fetch` | main/libloragw/loragw_sx1302.c:1861-1893 | the FIFO is read only when no frame is left in the buffer |
| `Receive.Hal.ParsePacket` | main/libloragw/loragw_sx1302.c:1923-1985 | one pop with the CRC handling of a packet; a damaged frame empties the buffer |
| `Receive.Hal.ParsePackets` | main/libloragw/loragw_hal.c:1231-1251 | the parsing loop collects packets until a warning or an error ends the call |
| `Receive.Hal.Receive` | main/libloragw/loragw_hal.c:1187-1270 | result and buffer after one call are `ReceiveCall` of the buffer before it and the FIFO bytes |
| `Queues.StepConserves` | main/libloragw/loragw_hal.c:1231-1251 | a call that meets no bad frame, or a blocking one first, returns the front of the pending frames and leaves the rest; any other call leaves fewer than it took and returned |
| `Queues.RunDeliversIff` | main/libloragw/loragw_hal.c:1187-1270 | over any run, with frames good or bad, what was returned and what is pending make up exactly the stream if and only if no call lost a frame |
| `Queues.GoodStep` | main/libloragw/loragw_hal.c:1231-1251 | with good frames only, a call returns as many packets as it can and nothing is lost |
| `Queues.CallBlockedIff` | main/libloragw/loragw_hal.c:1238-1241 | a call that asks for packets leaves everything pending exactly when the next frame blocks |
| `Delivery.CollectTakes` | main/libloragw/loragw_hal.c:1231-1251 | on a buffer that holds any frames the loop returns and leaves what a call on the queue of frames does |
| `Delivery.CallReturnsAllIff` | main/libloragw/loragw_hal.c:1231-1251 | all n packets are returned exactly when the next n frames are good |
| `Delivery.StepRefines` | main/libloragw/loragw_hal.c:1187-1270 | a call or an arrival acts on buffer and FIFO as on the queue; the FIFO is read only when the buffer is drained |
| `Delivery.RunRefines` | main/libloragw/loragw_hal.c:1187-1270 | every run, whatever frames arrive, stays inside the array and returns, call by call, what the queue returns |
| `Delivery.DeliversIff` | main/libloragw/loragw_hal.c:1187-1270 | from start-up, over any run with any frames: returned and pending packets are exactly what arrived, in order, if and only if no call lost a frame |
| `Delivery.DeliveryFromStart` | main/libloragw/loragw_hal.c:1187-1270 | with good frames only, the returned packets are a prefix of those that arrived, for any max_pkt in every call |
| `Delivery.DeliveredAsSent` | main/libloragw/loragw_hal.c:1187-1270 | over any run of encoded frames that are not refused, packet number k returned has the payload, modem, channel, CRC, stamp and CRC status of frame number k sent |
| `Delivery.HalOfEncoding` | main/libloragw/loragw_sx1302.c:1923-1985 | the packet made of an encoded frame has the fields of that frame |
| `Delivery.GoodIff` | main/libloragw/loragw_sx1302.c:1923-1985 | what a call makes of a frame in terms of its bytes: damaged, blocking and refused, each if and only if |
| `Delivery.PendingIsDrained` | main/libloragw/loragw_hal.c:1187-1270 | once nothing more arrives, as many calls as there are pending frames return all their packets in order |
| `Delivery.PopErrorIff` | main/libloragw/loragw_sx1302_rx.c:335-352 | on a counted buffer a pop fails with an error exactly at a complete frame with a correct checksum and metadata out of range |
| `Delivery.StuckStep` | main/libloragw/loragw_hal.c:1231-1241 | at such a frame a call fails and changes nothing |
| `Delivery.StuckForever` | main/libloragw/loragw_hal.c:1187-1241 | from then on every call that asks for packets fails and the FIFO is never read, whatever arrives |
| `Delivery.SecondFrameDecides` | main/libloragw/loragw_hal.c:1231-1251 | a good frame before any other, from start-up: both packets are returned if the second is good; otherwise the first is lost, and the receiver is stuck exactly if the second is out of range |
| `Delivery.CutFrameIsDropped` | main/libloragw/loragw_sx1302_rx.c:257-261 | a frame fetched without its end makes the call return nothing and empties the buffer |
| `Delivery.BadFramesExist` | main/libloragw/loragw_sx1302_rx.c:272-352 | concrete 23-byte frames that are damaged, blocking, refused and good |
| `Crc.LoraPayloadCrc` | main/libloragw/loragw_sx1302.c:2191-2201 | the loop computes `PayloadCrc`, within 16 bits |
| `Crc.AccumulatorFits` | main/libloragw/loragw_sx1302.c:193-212 | the accumulator stays below 2^16 |
| `Crc.CrcDivides` | main/libloragw/loragw_sx1302.c:193-212 | the network folded over a message leaves the remainder of a division of the message by x^16+x^12+x^5+1 |
| `Crc.CrcIsTheRemainder` | main/libloragw/loragw_sx1302.c:2191-2201 | the payload CRC is the one 16-bit number that is a remainder of the message modulo the generator |
| `Crc.NetworkRefinesLongDivision` | main/libloragw/loragw_sx1302.c:193-212 | the unrolled network equals bit-serial long division for messages of any length |
| `Crc.ErrorIsMissedIff` | main/libloragw/loragw_sx1302.c:2191-2201 | two messages have the same CRC if and only if their difference is a multiple of the generator |
| `Crc.MissedErrorsSpan17` | main/libloragw/loragw_sx1302.c:2191-2201 | an unnoticed error touches two bits at least 16 positions apart |
| `Crc.BurstIsDetected` | main/libloragw/loragw_sx1302.c:2191-2201 | messages that differ only inside 16 consecutive bits never share a CRC |
| `Crc.GeneratorBurstIsMissed` | main/libloragw/loragw_sx1302.c:2191-2201 | the bound is tight: the 17-bit pattern of the generator goes unnoticed anywhere |
| `Crc.CrcIsLinear` | main/libloragw/loragw_sx1302.c:2191-2201 | the XOR of two messages of equal length has the XOR of their CRCs |
| `Crc.OddErrorsAreDetected` | main/libloragw/loragw_sx1302.c:2191-2201 | messages that differ in an odd number of bits never share a CRC |
| `Timestamp.TicksToMicros` | main/libloragw/loragw_sx1302_timestamp.c:361-363 | a 32-bit 32 MHz register divided by 32 is the true microseconds modulo 2^27 |
| `Timestamp.BigEndianOfSplit` | main/libloragw/loragw_sx1302_timestamp.c:349-356 | the big-endian read puts together a word that was split into its bytes |
| `Timestamp.UpdateMisses` | main/libloragw/loragw_sx1302_timestamp.c:302-318 | a read misses exactly the full wraps since the last read |
| `Timestamp.ExpandIsTime` | main/libloragw/loragw_sx1302_timestamp.c:379-395 | the expanded counter is the true time less 2^27 per missed wrap, modulo 2^32 |
| `Timestamp.ExpandedIffNoneMissed` | main/libloragw/loragw_sx1302_timestamp.c:302-318 | after any run of reads the expanded counter is the true time modulo 2^32 exactly when the missed wraps add up to a multiple of 32 |
| `Timestamp.ExpandedIsTrueTime` | main/libloragw/loragw_sx1302_timestamp.c:302-395 | with less than 2^27 microseconds between reads, every expansion in the run is the true time modulo 2^32 |
| `Timestamp.PacketIsTrueTimeIff` | main/libloragw/loragw_sx1302_timestamp.c:400-424 | a packet expands to its own true time if and only if the last read, less the wraps missed, is modulo 2^32 less than 2^27 microseconds after it, across all wraps including from 0 to 31 |
| `Timestamp.PacketAfterRunIff` | main/libloragw/loragw_sx1302_timestamp.c:302-424 | the same over any run of reads from the reset counter, with the wraps that the run missed |
| `Timestamp.PacketAfterFrequentReadsIff` | main/libloragw/loragw_sx1302_timestamp.c:302-424 | with reads less than 2^27 microseconds apart, exactly the packets of the last 2^27 microseconds expand to their true time |
| `Timestamp.PacketCountIsTrueIff` | main/libloragw/loragw_sx1302.c:2149-2179 | the same for the count handed to the caller, with the correction added |
| `PacketTime.CountIsCorrectedTime` | main/libloragw/loragw_sx1302.c:2020-2179 | in a run of reads in time, the count of every packet is the true time of its stamp plus the correction for its bandwidth, datarate, coding rate and length |
| `PacketTime.CorrectionCases` | main/libloragw/loragw_sx1302.c:2020-2179 | whose bandwidth and coding rate the correction takes on channels 0 to 7, 8 and 9 |
| `PacketTime.LoraCountIsTrue` | main/libloragw/loragw_sx1302.c:2020-2179 | for every LoRa packet that count lies less than 16 milliseconds before its stamp, and at the stamp exactly if its coding rate or the configured bandwidth is invalid |
| `Timestamp.TimestampCounter.constructor` | main/libloragw/loragw_sx1302_timestamp.c:290-292 | both counters start at zero |
| `Timestamp.TimestampCounter.Update` | main/libloragw/loragw_sx1302_timestamp.c:302-318 | both counters take the new reading, each counting a wrap modulo 32 when it went back |
| `Timestamp.TimestampCounter.Get` | main/libloragw/loragw_sx1302_timestamp.c:322-375 | of the two or three register reads it uses the settled one, saves the PPS edge and returns both true times modulo 2^32 when less than 2^27 microseconds passed; it keeps the exact number of missed wraps otherwise |
| `PpsHistory.SaveHoldsLast` | main/libloragw/loragw_sx1302_timestamp.c:258-285 | the ring goes on holding the last sixteen values with consecutive repeats dropped, the newest at idx |
| `PpsHistory.StoredAreEdges` | main/libloragw/loragw_sx1302_timestamp.c:258-285 | however often each PPS edge is read, what is stored is each edge once, in order |
| `PpsHistory.Search` | main/libloragw/loragw_sx1302_timestamp.c:558-565 | the loop finds the first slot whose edge looks less than a second older than the packet |
| `PpsHistory.PlausibleGapIff` | main/libloragw/loragw_sx1302_timestamp.c:597-600 | the plausibility check lets through exactly the gaps of 26 666 667 to 40e6 ticks, for which the ratio to a nominal second is 0.8 to 1.2 |
| `PpsHistory.ReferenceForIff` | main/libloragw/loragw_sx1302_timestamp.c:551-595 | a reference is found exactly with a full ring, a candidate, and a gap of 26 666 667 to 40e6 ticks |
| `PpsHistory.GapIsConsecutive` | main/libloragw/loragw_sx1302_timestamp.c:555-587 | for all counts, the reference is a stored edge and the gap is to the edge next to it in time, never across the seam of the ring |
| `PpsHistory.LooksRecentIff` | main/libloragw/loragw_sx1302_timestamp.c:558-560 | for edges 26 666 667 to 40e6 ticks apart, a wrapped difference below a second means that the true edge lies less than a second before the packet |
| `PpsHistory.ReferenceIsLastSecond` | main/libloragw/loragw_sx1302_timestamp.c:555-595 | for edges 32e6 to 40e6 ticks apart, a stored edge is the reference with the true gap exactly when it lies in the second before the packet |
| `PpsHistory.NoReferenceIff` | main/libloragw/loragw_sx1302_timestamp.c:566-569 | for edges 26 666 667 to 40e6 ticks apart, no reference is found exactly when no stored edge lies in that second |
| `PpsHistory.AtMostOneLastSecond` | main/libloragw/loragw_sx1302_timestamp.c:555-565 | there is at most one such edge when the edges are at least 32e6 ticks apart |
| `PpsHistory.AtMostTwoLastSecond` | main/libloragw/loragw_sx1302_timestamp.c:555-565 | with a slow crystal there are at most two, in a row |
| `PpsHistory.ReferenceIsLatestIff` | main/libloragw/loragw_sx1302_timestamp.c:555-595 | for edges 26 666 667 to 40e6 ticks apart, the last edge before the packet is the reference exactly if it is the newest, no second edge lies in that second, or its slot is 0; otherwise the edge before it is |
| `PpsHistory.SlowCrystalMisleads` | main/libloragw/loragw_sx1302_timestamp.c:558-565 | an input with 30e6 ticks a second where the wrong edge is taken |
| `PpsHistory.OldPacketIsMisled` | main/libloragw/loragw_sx1302_timestamp.c:555-595 | an input 2^32 - 32e6 ticks before the newest edge where that edge is taken |
| `PpsHistory.TooOldIffMisled` | main/libloragw/loragw_sx1302_timestamp.c:555-595 | a packet before the newest edge is timed against that later edge exactly when it is at least 2^32 - 32e6 ticks older |
| `PpsHistory.SearchAfterReads` | main/libloragw/loragw_sx1302_timestamp.c:551-595 | after any run of saves that sees every edge, the search works on exactly the last sixteen true edges |
| `PpsHistory.History.constructor` | main/libloragw/loragw_sx1302_timestamp.c:69-73 | the ring starts empty |
| `PpsHistory.History.Save` | main/libloragw/loragw_sx1302_timestamp.c:258-285 | the new ring is `Saved` of the old one and holds the last sixteen distinct values of the whole log |
| `PpsHistory.History.SearchSlots` | main/libloragw/loragw_sx1302_timestamp.c:558-565 | the loop computes `Search` |
| `PpsHistory.History.FindReference` | main/libloragw/loragw_sx1302_timestamp.c:498-595 | size check, save, search and plausibility check give `ReferenceFor` |
| `LegacyCorrection.FitsIffNoneRemains` | main/libloragw/loragw_sx1302_timestamp.c:147-165 | the fit test holds exactly when no nibble is left after the header block, which covers every unsigned underflow |
| `LegacyCorrection.ComputedIsLastBlock` | main/libloragw/loragw_sx1302_timestamp.c:138-141 | when nibbles remain, the 32-bit expression gives the fill of the last block, between 1 and SF |
| `LegacyCorrection.CorrectionIsIdeal` | main/libloragw/loragw_sx1302_timestamp.c:103-211 | for every valid packet the correction equals one computed without unsigned arithmetic |
| `LegacyCorrection.CorrectionIsStageSum` | main/libloragw/loragw_sx1302_timestamp.c:103-211 | for every valid packet the correction is minus the sum of filtering, FFT state 3, FFT, demapping and decoding delays, each written as the source adds it up in units of 1e-12 seconds, rounded to the nearest microsecond |
| `LegacyCorrection.CorrectionAtSf7` | main/libloragw/loragw_sx1302_timestamp.c:103-211 | -456 microseconds for 20 bytes with CRC at SF7, 125 kHz, 4/5 |
| `LegacyCorrection.CorrectionAtSf12` | main/libloragw/loragw_sx1302_timestamp.c:103-211 | -15414 microseconds for the same at SF12, with the low data rate optimisation |
| `LegacyCorrection.CorrectionOfHeader` | main/libloragw/loragw_sx1302_timestamp.c:103-211 | -3536 microseconds for an empty packet at SF12, 500 kHz, that fits in the header |
| `LegacyCorrection.UnderflowHappens` | main/libloragw/loragw_sx1302_timestamp.c:138-141 | the underflow does occur, and its value is meaningless |
| `LegacyCorrection.CorrectionBounds` | main/libloragw/loragw_sx1302_timestamp.c:181-201 | the correction lies strictly between -16000 and 0 microseconds, so the overflow assertion cannot fail |
| `LegacyCorrection.CounterCorrectionBounds` | main/libloragw/loragw_sx1302_timestamp.c:452-474 | for all parameters, valid or not, the correction lies in (-16000, 0], and is 0 exactly when they are refused |
| `LegacyCorrection.CorrectionIsPeriodic` | main/libloragw/loragw_sx1302_timestamp.c:138-141 | payloads that differ by whole blocks have the same correction |
| `Merge.SameIsSymmetric` | main/libloragw/loragw_hal.c:241-260 | sameness is reflexive and symmetric on the circle of counts |
| `Merge.SameIff` | main/libloragw/loragw_hal.c:241-260 | literally: chain, datarate and payload are equal and one count is at most 24 microseconds ahead of the other modulo 2^32 |
| `Merge.CountsNearIff` | main/libloragw/loragw_hal.c:244-249 | for true times less than 2^31 apart that means at most 24 microseconds apart |
| `Merge.DropsBetterIff` | main/libloragw/loragw_hal.c:352-374 | the better of two packets is dropped exactly when its CRC is good, the CRC of the other was not checked, and the fine timestamp flag of the first decides against it |
| `Merge.FindPair` | main/libloragw/loragw_hal.c:341-350 | the restarting search finds a pair of same packets unless there is none |
| `Merge.KeptAreDistinct` | main/libloragw/loragw_hal.c:340-406 | no two packets kept are the same |
| `Merge.KeptWereReceived` | main/libloragw/loragw_hal.c:264-285 | the packets kept are a sub-multiset of those received |
| `Merge.SurvivorOf` | main/libloragw/loragw_hal.c:340-406 | every packet leads by a chain of same packets of non-decreasing rank to one that is kept, if a good packet is the same as an unchecked one only when it has a fine timestamp and the other has none |
| `Merge.FavouredIff` | main/libloragw/loragw_hal.c:352-374 | that condition on two packets holds exactly when the better of them is kept in either order |
| `Merge.PairKeptIff` | main/libloragw/loragw_hal.c:351-374 | of any two same packets, which one is kept, by their statuses and fine timestamp flags |
| `Merge.SurvivorsIff` | main/libloragw/loragw_hal.c:340-406 | that condition on a list holds exactly when every packet of every list of its packets has such a survivor |
| `Merge.OneOfEachClass` | main/libloragw/loragw_hal.c:340-406 | where sameness is transitive, each class leaves exactly one packet, of maximal rank |
| `Merge.ChainsAreNeeded` | main/libloragw/loragw_hal.c:241-260 | a survivor need not be the same as the packet it stands for |
| `Merge.GoodPacketCanBeDropped` | main/libloragw/loragw_hal.c:362-374 | a packet with a good CRC can lose against one without CRC |
| `Merge.CompareIsRightIff` | main/libloragw/loragw_hal.c:289-304 | the comparison has the right sign exactly when the signed difference fits in 32 bits |
| `Merge.SortIsPermutation` | main/libloragw/loragw_hal.c:408-409 | sorting permutes |
| `Merge.SortIsOrdered` | main/libloragw/loragw_hal.c:289-304 | the result is in the order of any key that the comparison agrees with |
| `Merge.SortedBySignedCount` | main/libloragw/loragw_hal.c:289-304 | it is ordered by signed count when all differences fit |
| `Merge.SortedByTrueTime` | main/libloragw/loragw_hal.c:289-304 | it is in true time order when the times lie within 2^31 microseconds, across the wrap and the change of sign too |
| `Merge.TrueTimeIs` | main/libloragw/loragw_hal.c:289-304 | the count of a packet gives back any true time in the window |
| `Merge.MergedIsClean` | main/libloragw/loragw_hal.c:308-435 | the merged packets are distinct, a sub-multiset of the input, ordered by signed count when the differences fit, and in true time order within any window of 2^31 microseconds |
| `Merge.LonelyIsKept` | main/libloragw/loragw_hal.c:308-435 | a packet is kept if every other one differs from it in chain, datarate or payload, or lies more than 24 microseconds away on the circle of counts |
| `Merge.MergedAreApart` | main/libloragw/loragw_hal.c:308-435 | no two merged packets agree in chain, datarate and payload with true times at most 24 microseconds apart |
| `Merge.MergedSurvivor` | main/libloragw/loragw_hal.c:308-435 | every received packet has a survivor of at least its rank in the merged output |
| `Merge.IsSame` | main/libloragw/loragw_hal.c:241-260 | the computed test is sameness on the circle, unless the counts are exactly 2^31 apart |
| `Merge.RemovePacket` | main/libloragw/loragw_hal.c:264-285 | the last packet replaces the removed one in place; an index out of range changes nothing |
| `Merge.FirstSame` | main/libloragw/loragw_hal.c:343-350 | the inner loop finds the first packet that is the same |
| `Merge.ChooseDuplicate` | main/libloragw/loragw_hal.c:351-374 | the choice of the packet to delete |
| `Merge.RemoveDuplicates` | main/libloragw/loragw_hal.c:340-406 | the restarting loop ends and leaves `WithoutDuplicates` of the array |
| `Merge.MergePackets` | main/libloragw/loragw_hal.c:308-435 | the array holds `Merged` of its old contents |
| `Gps.FailsIff` | main/libloragw/loragw_gps.c:637-671 | in any run an attempt fails exactly when it is aberrant and not both attempts before it were |
| `Gps.AberrantIff` | main/libloragw/loragw_gps.c:620-634 | in whole microseconds and nanoseconds: a point is taken exactly when it comes after the reference and the counter has run at 0.99999 to 1.00001 of the rate |
| `Gps.NeverThreeFailures` | main/libloragw/loragw_gps.c:637-671 | three attempts in a row never all fail |
| `Gps.RefIsLastSuccess` | main/libloragw/loragw_gps.c:638-671 | the reference is that of the last success, with the crystal error in range; failures change nothing |
| `Gps.UsableAfterSuccess` | main/libloragw/loragw_gps.c:684 | after a success none of the four conversions refuses the reference, if the system time was not zero |
| `Gps.AberrantRunResets` | main/libloragw/loragw_gps.c:650-665 | a run of aberrant points resets every time after two failures and keeps a crystal error in range |
| `Gps.ResetKeepsXtal` | main/libloragw/loragw_gps.c:650-665 | a reset keeps the crystal error if it is within 10 ppm, and sets 1.0 otherwise |
| `Gps.SlopeExplainsPoint` | main/libloragw/loragw_gps.c:620-646 | a point that is not aberrant succeeds, and with the crystal error stored for it the old reference converts its UTC time to exactly its count |
| `Gps.CntToTimeIsTrue` | main/libloragw/loragw_gps.c:678-704 | the time is the true one rounded down to a nanosecond, with nanoseconds in [0, 1e9) |
| `Gps.CntRoundTrip` | main/libloragw/loragw_gps.c:678-725 | counter to time and back gives the same count if its true time is a whole number of nanoseconds, and one less otherwise, modulo 2^32 |
| `Gps.UtcAndGpsRoundTrip` | main/libloragw/loragw_gps.c:678-776 | UTC and GPS time each start from their own reference time: both give the reference count there, and the same count back for any other |
| `Gps.CountIsLost` | main/libloragw/loragw_gps.c:678-725 | with a crystal 10 ppm fast, the count 1 converts to UTC and back to 0 |
| `Gps.TimeToCntDefinedIff` | main/libloragw/loragw_gps.c:717-722 | the cast to 32 bits is defined exactly for times from less than one count before the reference to less than 2^32 counts after |
| `Gps.UsableIff` | main/libloragw/loragw_gps.c:684-686 | each of the four conversions refuses a reference exactly when it was never set or its crystal error is not within 10 ppm |
| `Gps.TimeRoundTrip` | main/libloragw/loragw_gps.c:729-776 | time to counter and back is never later and at most 1001 ns earlier |
| `Gps.CntToTimeMonotone` | main/libloragw/loragw_gps.c:690-701 | conversion keeps the order of counts |
| `Gps.GpsUtcOffset` | main/libloragw/loragw_gps.c:729-755 | UTC and GPS time of every count differ as at the reference |
| `Gps.GpsSync.constructor` | main/libloragw/loragw_gps.c:613-614 | no attempt is remembered at the start |
| `Gps.GpsSync.Synchronise` | main/libloragw/loragw_gps.c:607-674 | new state and result are `Synced` of the old state; a failure leaves the reference, a success makes it usable |
| `BitOps.SignExtends` | main/libloragw/loragw_reg.c:1146-1149 | an arithmetic shift of the aligned field is its two's complement value |
| `RegField.WrittenBit` | main/libloragw/loragw_spi.c:177-193 | a read-modify-write sets the bits of the field from the value and no others |
| `RegField.ReadsBack` | main/libloragw/loragw_reg.c:1116-1161 | a field reads back the written value reduced to its width, sign-extended when signed |
| `RegField.WriteOwnsBits` | main/libloragw/loragw_reg.c:1215-1242 | a register write leaves all bits of other fields, and refused writes leave everything |
| `RegField.WriteThenRead` | main/libloragw/loragw_reg.c:1215-1269 | after a write the register reads the new value and every other register its old one |
| `RegField.ReadsLastWrite` | main/libloragw/loragw_reg.c:1215-1269 | after any writes every register reads its last accepted value, reduced |
| `RegField.UnownedBitsStay` | main/libloragw/loragw_reg.c:1215-1242 | over any writes, bits outside the written fields never change |
| `RegField.ReadOnlyBitsStay` | main/libloragw/loragw_reg.c:1215-1242 | over any writes, the bits of a read-only register never change |
| `RegField.RegisterFile.Write` | main/libloragw/loragw_reg.c:1215-1242 | writes exactly the known writable registers that lie within a byte, and refuses all others |
| `RegField.RegisterFile.Read` | main/libloragw/loragw_reg.c:1247-1269 | delivers the register without changing the memory, and refuses unknown numbers and fields over the end of a byte |
| `Chip.Device.Write` | main/libloragw/loragw_spi.c:124-144 | one byte changes |
| `Chip.Device.Read` | main/libloragw/loragw_spi.c:148-174 | one byte is delivered |
| `Chip.Device.ReadModifyWrite` | main/libloragw/loragw_spi.c:177-193 | the byte becomes the old one with the field replaced |
| `MemChunk.StoredInTwo` | main/libloragw/loragw_reg.c:1359-1370 | storing two pieces in a row is storing them together |
| `MemChunk.StoredAt` | main/libloragw/loragw_reg.c:1343-1378 | cell by cell: byte k goes to the address plus k on 15 bits and no other cell changes |
| `MemChunk.SpiWritesWholeIff` | main/libloragw/loragw_spi.c:231-280 | a single SPI burst writes the whole block exactly up to 1024 bytes; more goes over the start |
| `MemChunk.SpiReadsWholeIff` | main/libloragw/loragw_spi.c:283-334 | the same for reads of plain memory |
| `MemChunk.SpiWrite` | main/libloragw/loragw_spi.c:252-265 | the loop sends every piece to the same address, one transaction each |
| `MemChunk.SpiRead` | main/libloragw/loragw_spi.c:306-319 | the loop reads every piece from the same address; in FIFO mode it delivers the next bytes |
| `MemChunk.MemWrite` | main/libloragw/loragw_reg.c:1343-1378 | the chunked write equals one write of the block, with one transaction a chunk; an empty block is an error |
| `MemChunk.MemRead` | main/libloragw/loragw_reg.c:1382-1421 | the chunked read equals one read, or the next bytes of the FIFO, with one transaction a chunk |
| `MemChunk.WriteReadBack` | main/libloragw/loragw_reg.c:1343-1421 | a block of at most 2^15 bytes is read back as written |
| `TimeOnAir.ToaIsDatasheet` | main/libloragw/loragw_aux.c:90-107 | for every valid packet the integer time equals the real-valued formula of the LoRa modem's datasheet, in bytes, header, CRC, preamble, hertz and chips |
| `TimeOnAir.CrcCostsTwoBytes` | main/libloragw/loragw_aux.c:98 | a CRC costs what two more bytes do |
| `TimeOnAir.PayloadBlocksAreLeast` | main/libloragw/loragw_aux.c:99-101 | the payload takes the fewest coding blocks that carry all its bits |
| `TimeOnAir.ToaIsExact` | main/libloragw/loragw_aux.c:90-107 | no division rounds: the time is the exact symbol count times 2^SF over the bandwidth |
| `TimeOnAir.ToaMonotone` | main/libloragw/loragw_aux.c:98-107 | more payload, redundancy or preamble never takes less time, and more preamble takes more |
| `TimeOnAir.ToaCoversModem` | main/libloragw/loragw_aux.c:95 | counting the low data rate optimisation from SF11 at every bandwidth never gives less than the modem's own setting |
| `TimeOnAir.ToaFits` | main/libloragw/loragw_hal.c:1569-1571 | no step overflows 32 bits, nor does the conversion to milliseconds and back |
| `TimeOnAir.ToaAtSf7` | main/libloragw/loragw_aux.c:90-107 | 56576 microseconds for 20 bytes at SF7 |
| `TimeOnAir.ToaAtSf12` | main/libloragw/loragw_aux.c:90-107 | 1318912 microseconds for them at SF12 |
| `Lora.PpmOnIff` | main/libloragw/loragw_sx1302.h:43 | the modem uses the low data rate optimisation exactly for symbols longer than 16 milliseconds |
| `Lbt.EqualFreqIsNoEquivalence` | main/libloragw/loragw_lbt.c:52-62 | frequency equality is symmetric but not transitive |
| `Lbt.IsLbtChannel` | main/libloragw/loragw_lbt.c:66-80 | the first matching channel, or -1 if none matches |
| `Lbt.AdmissionTest` | main/libloragw/loragw_lbt.c:109 | the comparison in rounded milliseconds decides exactly whether the exact time plus 1500 microseconds is strictly below the limit |
| `Lbt.Start` | main/libloragw/loragw_lbt.c:96-112 | a packet is admitted if and only if the first matching channel has room for its exact time on air plus 1500 microseconds; each of the three error cases if and only if |
| `Lbt.ShorterFits` | main/libloragw/loragw_lbt.c:108-112 | a packet with less payload, redundancy and preamble than one that fits also fits |
| `FreqDrift.DriftBounds` | main/libloragw/loragw_sx1302.c:179 | the drift is at least 30 for 32-bit frequencies, and below 4096 exactly above 256 times the bandwidth |
| `FreqDrift.DriftIsQuotient` | main/libloragw/loragw_sx1302.c:179 | the drift is bw * 2^20 / freq, rounded down |
| `FreqDrift.Calculate` | main/libloragw/loragw_sx1302.c:164-189 | the loop ends with the least exponent that brings the mantissa to 2048, at most 7, and the mantissa is the shifted drift cut to 16 bits |
| `FreqDrift.RegistersHoldMantissaIff` | main/libloragw/loragw_sx1302.c:980-982 | the 4 + 8 bit registers hold the whole mantissa exactly for frequencies above 256 times the bandwidth (128 MHz for the widest) |

## Left out

- Start-up and configuration sequences, the AGC and arbiter firmware, radio drivers, USB, the JSON and Python files: device sequencing and data.
- Waits, timeouts, logging and bus errors: every transfer succeeds, so the status that the chunked transfers return is not modelled beyond the empty block.
- RSSI, temperature and frequency-error values, the DC notch delay and the metrics mean of fine timestamps: floating point without a crisp property. Of fine timestamping only the choice of the reference edge is modelled, for a packet count already shifted to the end of the preamble.
- Receive.Hal.ParsePacket: leaves out the frequency, its offset and the radio measurements. The count of the packet is modelled in `PacketTime`, its datarate, bandwidth and coding rate as far as the count depends on them.
- RxBuffer.RxBuffer.Fetch: requires that the header reads of the walk stay inside the 4096-byte array (`FetchInside`); outside it C reads foreign memory. `RxStream.FetchStream` shows that streams of whole frames meet it.
- RxBuffer.RxBuffer.Pop: likewise requires header reads inside the array, and at most 127 pairs of metrics, because the metrics array of `rx_packet_t` holds 255 entries.
- Receive.Hal.Receive: with fine timestamps on, the packets are merged before they are returned; merging is modelled on its own, not inside the runs of `Delivery`, because whether a packet has a fine timestamp depends on floating point.
- Timestamp.TimestampCounter.Get: that the bytes of the settled read belong together is assumed; what the chip does during a read is not known.
- Merge.IsSame: requires that the counts are not exactly 2^31 apart, where `abs` of the smallest integer is undefined.
- Merge.MergePackets: stands in an insertion sort for the library's `qsort_r`, and a comparison that wraps for the signed subtraction, whose overflow C leaves undefined.
- Gps.CntToTimeIsTrue: rounding of doubles is not modelled.
- PacketTime.CountIsCorrectedTime: requires a non-zero FSK datarate, by which the code divides; fine timestamps are off.
- FreqDrift.Calculate: requires a non-zero frequency, by which the code divides.
- RegField.ReadsLastWrite: assumes disjoint fields of plain storage within a byte; pulse and clear-on-write registers and the literal register table are not modelled.
- MemChunk.MemRead: in FIFO mode assumes that the FIFO delivers as many bytes as are read.
- `lgw_time_on_air` of FSK packets, the sx1261 calls after the listen-before-talk checks, NMEA and UBX parsing.
