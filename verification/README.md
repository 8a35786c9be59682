# Verified model of the snapclient audio pipeline

snapclient is a clock-synchronised audio player. This project models the parts of it that decide *what* is played
and *when*, and proves properties of them over all inputs, all runs and all interleavings:

| files | part of the program |
|---|---|
| `OrderStatistics.dfy`, `MedianRings.dfy`, `MedianFilter.dfy` | the sliding-window median filter: two rings linked through one node array |
| `TimeFilter.dfy` | the two-state Kalman filter over clock offset and drift |
| `OffsetEstimate.dfy`, `LatencySnapshot.dfy` | the four-timestamp offset estimate, and publishing offset and drift to the player |
| `Wire.dfy`, `Buffer.dfy`, `Connection.dfy`, `Parser.dfy`, `Pcm.dfy`, `Dispatch.dfy`, `Protocol.dfy`, `TimeExchange.dfy` | from network buffers to delivered messages and PCM chunks |
| `Divisors.dfy`, `PlayerSync.dfy`, `SyncLimits.dfy`, `ChunkConservation.dfy` | the error signal and correction loop of the player, the sample rates for which it is safe, and who owns a chunk |
| `WebSocket.dfy`, `WebSocketEvents.dfy`, `Improv.dfy`, `HandOff.dfy` | the WebSocket frame codec and the count of its events, Improv serial frames, and two hand-offs between tasks |

Where the program changes state in place the model is a class with the same fields, proved against a specification
function of the old state; the laws are lemmas about those functions, and methods such as `Replay`, `Receive`,
`PlayStream` and `ReadAll` carry a law through a whole run of the classes. Two tasks that share state are a state
machine whose steps are the accesses to it, and the laws hold for every interleaving.

Things the proofs brought out:

* The strict comparison of the median filter is sound for all samples except when the first n-1 samples have
  INT64_MAX, the marker of unused nodes, as their median; then, and only then, the median head ends up in the wrong place.
* The time filter counts no further than max(2, min_samples), so it is never full for a larger number.
* The update of the time filter is optimal: no other gains leave any combination of offset and drift less uncertain.
* The error of the player is the lateness with which a chunk is heard, so clients with the same buffer length are as far
  apart as their errors and their clock estimates, whatever their hardware.
* The offset estimate can miss the truth by one microsecond more than the half round trip computed with it.
* A PCM chunk left half filled by a broken connection is kept across the reconnect and takes the place of the next one:
  its size stays, and its frames are shifted by three bytes. The chunk played is the right one exactly if the sizes
  agree, no more frames had been stored than arrive, and all that arrives is whole frames of silence; or if neither
  chunk has a payload.
* The PCM stores leave their buffer exactly if the message carries more whole frames than the chunk announces, encoded
  data if it is longer than the chunk announces, and the settings if they are more than one byte longer than announced.
  The codec name leaves its buffer exactly for the announced length 0xFFFFFFFF, for which the check wraps around. None
  of this happens with messages that announce what they carry.
* Reconnecting after a refused message, unlike after the end of the stream, leaves one network buffer undeleted.
* A time message is consumed as eight bytes whatever size it announces.
* Corrections of the player never carry it past zero from the early side exactly if the sample rate sr is at least
  31250 Hz, and from the late side exactly if 63 sr + 2 gcd(10^6, sr) is at least 2 * 10^6, which every rate from
  31747 Hz on meets.
* While a frame is being repeated, truncation can cost a fourth microsecond.
* A chunk whose send comes after the chunk queue has been found empty for deletion, and before there is a new queue, is
  lost; no other ever is.
* A chunk without memory for its payload makes its own duration look like lateness, for that one measurement. If it is
  empty, about a billion frames of zeros are written instead of none, and the lateness stays; if its size is not whole
  frames the loop that writes zeros never ends.
* A WebSocket read that gives up after taking n further buffers brings events and reads out of count by n: there will
  be n events for which there is no buffer any more. A header cut by the end of a buffer is completed with what lies
  behind that buffer, and so is the payload.
* A control frame between the fragments of a WebSocket message makes the rest of the message be ignored.
* After an Improv call that is handled, the byte stored at the front of the buffer makes the receiver miss a frame
  that follows without a separator. Calls with more than 119 bytes of data leave the receiver's buffer. The parser for
  calls with a trailing checksum never returns for 254 or 255 bytes of strings.

## Model

| member | source | states |
|---|---|---|
| OrderStatistics.SortedIsTheAscendingPermutation | components/libmedian/MedianFilter.c:50-116 | the reference for a window's order: any ascending permutation of the samples is the sorted window |
| OrderStatistics.MajorityBoundsMedian | components/libmedian/MedianFilter.c:101-115 | if more than half of a window lies in an interval, so does its median |
| OrderStatistics.MedianByCounts | components/libmedian/MedianFilter.c:101-115 | the median of a window is beyond a bound exactly if enough of its samples are |
| MedianRings.UnlinkKeepsRing | components/libmedian/MedianFilter.c:75-79 | the two writes that take the oldest node out leave a doubly linked cycle through all the others |
| MedianRings.LinkBeforeKeepsRing | components/libmedian/MedianFilter.c:95-99 | the four writes that insert a node before another give a doubly linked cycle with it at that place |
| MedianRings.OrderedStep | components/libmedian/MedianFilter.c:83-99 | value order with equal samples in arrival order and unused nodes last survives replacing the oldest sample, if the new one goes behind all that are not larger |
| MedianRings.RingIsSortedWindow | components/libmedian/MedianFilter.c:50-116 | read from the value head, an ordered ring is the sorted window followed by the unused nodes |
| MedianFilters.OldestAgainstMedian | components/libmedian/MedianFilter.c:64-65 | the strict comparison of values decides the place of the oldest node relative to the median, because equal samples stand in arrival order |
| MedianFilters.RingsStep | components/libmedian/MedianFilter.c:71-99 | one insertion keeps both rings: a permutation of all nodes, ordered, with the window's samples |
| MedianFilters.PositionSorts | components/libmedian/MedianFilter.c:83-90 | the place where the search stops keeps the order |
| MedianFilters.MedianStaysPlaced | components/libmedian/MedianFilter.c:58-69 | through filling, the step to a full buffer and sliding, the median head ends bufferCnt/2 steps from the value head unless the marker was the median |
| MedianFilters.MedianMisplaced | components/libmedian/MedianFilter.c:64-66 | in that one case the median head does end up elsewhere |
| MedianFilters.MedianFilter.Init | components/libmedian/MedianFilter.c:21-45 | succeeds exactly for odd lengths above one and then sets up both rings over all nodes, unused; otherwise changes nothing |
| MedianFilters.MedianFilter.Unlink | components/libmedian/MedianFilter.c:75-79 | removes exactly the oldest node from the value ring |
| MedianFilters.MedianFilter.FindPosition | components/libmedian/MedianFilter.c:83-90 | returns a place with no larger sample before it and a larger one, or the end of the filled part, behind it |
| MedianFilters.MedianFilter.LinkBefore | components/libmedian/MedianFilter.c:95-99 | inserts exactly the new node at the place found |
| MedianFilters.MedianFilter.MoveOldest | components/libmedian/MedianFilter.c:71-99 | the rings after the step, the oldest node carrying the new sample |
| MedianFilters.MedianFilter.AdjustMedian | components/libmedian/MedianFilter.c:101-113 | moves the median head by the steps that filling or sliding calls for |
| MedianFilters.MedianFilter.Insert | components/libmedian/MedianFilter.c:50-116 | keeps both rings and appends the sample to the history; returns the element of rank k/2 of the sorted last k samples and keeps the median head in place, exactly unless the marker is the median of the first n-1 samples |
| MedianFilters.MedianFilter.GetMedian | components/libmedian/MedianFilter.c:121-152 | the truncated average of the middle of the sorted window, over as many samples as fit around the median |
| MedianFilters.QuotientIsTruncated | components/libmedian/MedianFilter.c:149-149 | the average is rounded towards zero |
| MedianFilters.MedianFilter.IsFull | components/libmedian/MedianFilter.c:157-166 | tells whether n samples, or the whole buffer for n out of range, have been inserted |
| MedianFilters.NoMarker | components/libmedian/MedianFilter.c:26-26 | samples below INT64_MAX never lead to the case in which the filter goes wrong |
| MedianFilters.Replay | components/libmedian/MedianFilter.c:21-116 | every run: each insertion returns the median of the samples then in the window, as long as the marker has not been the median of the first n-1 |
| MedianFilters.MarkerSampleCounterexample | components/libmedian/MedianFilter.c:64-69 | five insertions after which the result is not the median |
| TimeFilters.PredictKeepsPsd | components/timefilter/TimeFilter.c:81-97 | prediction keeps the covariance positive semidefinite and adds the process noise to the offset variance |
| TimeFilters.ScaleKeepsPsd | components/timefilter/TimeFilter.c:106-112 | forgetting keeps the covariance positive semidefinite |
| TimeFilters.UpdateKeepsPsd | components/timefilter/TimeFilter.c:114-130 | the innovation variance is positive, the update keeps the covariance positive semidefinite, and the offset variance ends up below both the predicted and the measurement variance |
| TimeFilters.UpdateStepIsSound | components/timefilter/TimeFilter.c:81-130 | the same for the step the code takes, with the offset gain between 0 and 1 |
| TimeFilters.PredictionPropagates | components/timefilter/TimeFilter.c:81-97 | prediction, seen from the variance of any combination of offset and drift: letting time pass changes the combination, and the noise adds to it |
| TimeFilters.PriorPropagates | components/timefilter/TimeFilter.c:81-112 | the same with forgetting: all variances are scaled exactly if enough samples have been counted and the measurement lies off the line by more than so many times its error |
| TimeFilters.UpdateIsOptimal | components/timefilter/TimeFilter.c:114-130 | no other gains leave any combination of offset and drift less uncertain than the update does, and gains that differ for a combination leave it more uncertain |
| TimeFilters.StepIsOptimal | components/timefilter/TimeFilter.c:81-130 | a step moves offset and drift by these gains times the distance of the measurement, so the offset goes towards the measurement, by the share its variance has of the sum, and never past it |
| TimeFilters.FirstTwoMeasurements | components/timefilter/TimeFilter.c:55-79 | after two measurements: the newest value with its own variance, the slope between both with that of a difference |
| TimeFilters.DriftUsedIfSignificant | components/timefilter/TimeFilter.c:132-135 | over any run the drift is in use from the third accepted measurement on, and then exactly if its square exceeds its variance by the significance factor |
| TimeFilters.EveryRunIsSound | components/timefilter/TimeFilter.c:40-136 | over any sequence of measurements after a reset the covariance is positive semidefinite and the next division is by a positive number |
| TimeFilters.DenominatorVanishesWithoutNoise | components/timefilter/TimeFilter.c:55-116 | after two exact measurements the next division is by zero exactly if there is no process noise and the third measurement claims to be exact, so the assumption is needed |
| TimeFilters.FullFromTheNthSample | components/timefilter/TimeFilter.c:103-105 | over any run from empty the count reaches n with the n-th accepted measurement, and never if n exceeds max(2, min_samples), where counting stops |
| TimeFilters.ExactStep | components/timefilter/TimeFilter.c:55-136 | if offsets are affine in time and measured exactly, a filter that knows the line keeps knowing it, sees no residual and does not forget |
| TimeFilters.ExactRun | components/timefilter/TimeFilter.c:40-136 | from the second sample on offset and drift equal the truth after every such measurement and forgetting never triggers |
| TimeFilters.ExactRunAnswersRight | components/timefilter/TimeFilter.c:138-148 | after any such run, with the drift in use, the answer for every client time is within half a microsecond of the truth |
| TimeFilters.ShiftedStep | components/timefilter/TimeFilter.c:55-136 | adding a constant to offset and measurement adds it to the new offset and changes nothing else |
| TimeFilters.ShiftedRun | components/timefilter/TimeFilter.c:40-136 | adding a constant to all measurements of a run shifts the offset by that constant and changes nothing else |
| TimeFilters.RoundIsNearest | components/timefilter/TimeFilter.c:146-146 | rounding is to the nearest integer and odd-symmetric |
| TimeFilters.Gains | components/timefilter/TimeFilter.c:114-120 | multiplying by the reciprocal of the innovation variance gives the Kalman gains |
| TimeFilters.TimeFilter.Init | components/timefilter/TimeFilter.c:24-37 | squares the deviations and empties the filter; the result is usable exactly if process deviation and forget factor are not zero |
| TimeFilters.TimeFilter.Reset | components/timefilter/TimeFilter.c:150-159 | empties the filter and keeps the settings |
| TimeFilters.TimeFilter.Insert | components/timefilter/TimeFilter.c:40-136 | the in-place scalar code computes the matrix step: stale time stamps ignored, first and second sample, prediction, forgetting, update, significance flag |
| TimeFilters.TimeFilter.PredictAndForget | components/timefilter/TimeFilter.c:81-112 | the scalar prediction with adaptive forgetting is F P F' + Q, scaled if the residual is too large |
| TimeFilters.TimeFilter.CountOrForget | components/timefilter/TimeFilter.c:103-112 | a sample is counted, or else, beyond the cutoff, the covariance is scaled by the forget factor |
| TimeFilters.TimeFilter.Correct | components/timefilter/TimeFilter.c:81-135 | prediction, forgetting and update together are one filter step |
| TimeFilters.TimeFilter.GetOffset | components/timefilter/TimeFilter.c:138-148 | within half a microsecond of offset plus drift times elapsed time, the drift only if it is significant |
| TimeFilters.TimeFilter.IsFull | components/timefilter/TimeFilter.c:161-167 | after any run from an empty filter, full exactly if n measurements have had later time stamps than all before them and n is within the limit of counting |
| OffsetEstimates.EstimateIsBounded | main/main.c:224-232 | for non-negative delays the estimate is within the half round trip plus one microsecond of the true offset, and the half round trip is what the code passes on as error |
| OffsetEstimates.BoundIsTight | main/main.c:232-232 | the extra microsecond is needed |
| OffsetEstimates.MedianOfEstimatesIsBounded | components/lightsnapcast/player.c:646-668 | if most exchanges in the window have an error of at most E, the median of the estimates is within E+1 of the truth, whatever the others report |
| OffsetEstimates.TimeSync.TimeSyncMsgReceived | main/main.c:220-306 | the estimate and error of the exchange that the time stamps stem from, and their distance from the truth; the filter is cleared exactly after a minute without updates; the pace follows the fullness of the filter |
| OffsetEstimates.HandleReply | main/main.c:234-262 | one message through handler, filter and publication: the window starts anew with a clearing, a publication with the lock is within E+1 of the truth if most of the window is precise, and without the lock nothing is published |
| OffsetEstimates.PublishedOffsets | components/lightsnapcast/player.c:646-668 | end to end through the classes of handler and median filter, over any run with clearings and failing locks: every value published with the lock is within E+1 of the truth once most of the window since the last clearing is precise; otherwise the old value stays, or the zero of the clearing |
| LatencySnapshots.ExtrapolationIsOffsetAt | components/lightsnapcast/player.c:789-792 | extrapolating the published values gives what the filter itself answers |
| LatencySnapshots.StepKeepsConsistency | components/lightsnapcast/player.c:617-801 | every step of writer and reader, whether or not a try-lock succeeds, keeps shared values and copies whole |
| LatencySnapshots.RunKeepsConsistency | components/lightsnapcast/player.c:617-801 | so does every run |
| LatencySnapshots.EveryReadIsWhole | components/lightsnapcast/player.c:765-801 | under every interleaving a read lies, to half a microsecond, on the line of one whole past publication or reset; if the latest publication and the read both got the lock it is what the filter had published, and its own answer |
| LatencySnapshots.EveryReadIsRight | components/lightsnapcast/player.c:765-801 | if a steadily drifting clock is measured exactly, every read, with the lock or without, is within half a microsecond of the truth at every time as soon as the drift is in use |
| LatencySnapshots.PublicationSucceeds | components/lightsnapcast/player.c:617-690 | an insertion that gets the lock publishes the filter's new state |
| LatencySnapshots.ReadSucceeds | components/lightsnapcast/player.c:765-801 | a read that gets the lock after it returns the filter's own answer and renews the copies |
| Wire.TvRoundTrip | components/lightsnapcast/snapcast_protocol_parser.c:42-45 | a time stamp is read back from its bytes, negative values included |
| Wire.BaseRoundTrip | components/lightsnapcast/snapcast_protocol_parser.c:58-70 | a message header is read back from its 26 bytes, whatever follows |
| Wire.BaseByOffsets | components/lightsnapcast/snapcast_protocol_parser.c:58-70 | where each field of a header lies, least significant byte first, two's complement |
| Wire.Le16RoundTrip | components/libbuffer/buffer.c:67-85 | 16-bit little-endian round trip |
| Wire.Le32RoundTrip | components/libbuffer/buffer.c:43-65 | 32-bit little-endian round trip |
| Wire.FromLe32RoundTrip | components/libbuffer/buffer.c:43-65 | and back from any four bytes |
| Buffers.Le32OfSigned | components/libbuffer/buffer.c:117-127 | shifting and masking a negative value writes its two's complement |
| Buffers.WriteBuffer.WriteUint16 | components/libbuffer/buffer.c:77-85 | appends two bytes if they fit, otherwise fails and changes nothing |
| Buffers.WriteBuffer.Write32 | components/libbuffer/buffer.c:55-65 | appends four bytes if they fit, otherwise fails and changes nothing |
| Buffers.ReadBuffer.ReadUint16 | components/libbuffer/buffer.c:67-75 | consumes two bytes if there are so many, otherwise fails and stays |
| Buffers.ReadBuffer.ReadUint32 | components/libbuffer/buffer.c:43-53 | consumes four bytes if there are so many, otherwise fails and stays |
| Buffers.ReadBuffer.ReadInt32 | components/libbuffer/buffer.c:105-115 | the same with the sign restored |
| Buffers.BaseMessageSerialize | components/lightsnapcast/snapcast.c:22-38 | succeeds exactly with 26 bytes of room and then writes the header, leaving the rest of the buffer as it was |
| Buffers.BaseMessageDeserialize | components/lightsnapcast/snapcast.c:40-57 | succeeds exactly with 26 bytes and then reads the header |
| Buffers.HeaderRoundTrip | components/lightsnapcast/snapcast.c:22-57 | what is serialised is deserialised again, exactly if the buffer is large enough |
| Buffers.TimeMessageSerialize | components/lightsnapcast/snapcast.c:286-296 | succeeds exactly with eight bytes of room and then writes the latency |
| Buffers.TimeMessageDeserialize | components/lightsnapcast/snapcast.c:298-309 | succeeds exactly with eight bytes and then reads the latency |
| Buffers.WireChunkMessageDeserialize | components/lightsnapcast/snapcast.c:251-277 | succeeds exactly with twelve bytes; time stamp, size, and payload behind them |
| Connections.Connection.ReceiveData | main/connection_handler.c:241-313 | deletes the used buffer, skips timeouts, and yields the next buffer or gives up with all buffers deleted |
| Connections.Connection.FillBuffer | main/connection_handler.c:315-341 | moves to the next readable segment without skipping a byte; at the end tells whether the last segment was readable |
| Connections.Connection.EnsureByte | main/connection_handler.c:343-388 | finds a byte if any is to come, losing none; ends by a lexicographic measure over network events, segments and state; stays in the restart state |
| Connections.Connection.GetByte | main/connection_handler.c:390-398 | yields the bytes of all readable segments in order, once each; at the end every network buffer has been deleted in order, once; in the restart state nothing changes any more |
| Connections.Connection.BuffersLeftBehind | main/connection_handler.c:247-257 | a connection given up after the stream ended has deleted every network buffer; given up earlier, it leaves exactly one |
| Connections.CutsDoNotMatter | main/connection_handler.c:241-398 | however bytes are cut into buffers and segments, with empty ones and timeouts in between, exactly their concatenation is delivered |
| Pcm.SwapOfBytes | components/lightsnapcast/snapcast_protocol_parser.c:146-154 | the byte swap turns four bytes shifted in into the frame (left << 16) plus right of their little-endian samples |
| Pcm.WordsStep | components/lightsnapcast/snapcast_protocol_parser.c:125-164 | one more byte adds a frame exactly when it is a fourth one |
| Pcm.WordsOfSamples | main/main.c:792-800 | the frames of the bytes of samples are the pairs of samples |
| Pcm.PackOpus | main/main.c:787-801 | the Opus packing loop stores the same words that the PCM parser assembles from the same samples |
| Pcm.MisalignedUnlessSilent | components/lightsnapcast/snapcast_protocol_parser.c:95-123 | entering the byte loop with a chunk left over gives the right words exactly for whole frames of silence |
| Parsers.ReadData | components/lightsnapcast/snapcast_protocol_parser.c:47-56 | reads exactly the next n bytes, or fails exactly if there are fewer |
| Parsers.ReadUint16 | components/lightsnapcast/snapcast_protocol_parser.c:17-26 | little-endian 16-bit value off the stream |
| Parsers.ReadUint32 | components/lightsnapcast/snapcast_protocol_parser.c:28-40 | little-endian 32-bit value off the stream |
| Parsers.ReadTimestamp | components/lightsnapcast/snapcast_protocol_parser.c:42-45 | two signed 32-bit values off the stream |
| Parsers.ParseBaseMessage | components/lightsnapcast/snapcast_protocol_parser.c:58-70 | the header off the stream, exactly if 26 bytes are to come |
| Parsers.ReadPcm | components/lightsnapcast/snapcast_protocol_parser.c:112-167 | for every payload length, also when the stream ends early, the words stored are the frames of the bytes read |
| Parsers.NewChunkStaysInside | components/lightsnapcast/snapcast_protocol_parser.c:115-160 | the stores into a new chunk stay inside its payload exactly if its size covers the whole frames that the message carries |
| Parsers.LeftoverStaysInside | components/lightsnapcast/snapcast_protocol_parser.c:95-160 | for a chunk left over the same with three bytes more |
| Parsers.PcmStep | components/lightsnapcast/snapcast_protocol_parser.c:125-164 | shift register, shift and stored words after one more byte |
| Parsers.ParseWireChunkMessage | components/lightsnapcast/snapcast_protocol_parser.c:72-179 | time stamp, then size-12 bytes as encoded data or as PCM frames; the branch for an unsupported codec is unreachable |
| Parsers.CodecsByName | components/lightsnapcast/snapcast_protocol_parser.c:206-232 | which names are accepted, letter by letter up to the zero, and as which codec |
| Parsers.ParseCodecHeaderMessage | components/lightsnapcast/snapcast_protocol_parser.c:181-250 | accepts a header exactly for a supported name that fits and a complete payload; otherwise the flag is off |
| Parsers.NameStaysInside | components/lightsnapcast/snapcast_protocol_parser.c:190-208 | name and terminator stay inside their buffer for every length that passes the check except 0xFFFFFFFF |
| Parsers.ParseServerSettingsMessage | components/lightsnapcast/snapcast_protocol_parser.c:252-303 | the text is size-4 bytes, whatever the length field says |
| Parsers.EncodedStaysInside | components/lightsnapcast/snapcast_protocol_parser.c:83-104 | encoded data stays inside its buffer exactly if the message is at most as large as the announced chunk and its header; below twelve bytes its size wraps around |
| Parsers.SettingsStayInside | components/lightsnapcast/snapcast_protocol_parser.c:262-280 | text and terminator stay inside their buffer exactly if the message has at most one byte more than the announced length, which is not 0xFFFFFFFF; below four bytes its size wraps around |
| Parsers.ParseTimeMessage | components/lightsnapcast/snapcast_protocol_parser.c:306-320 | eight bytes are read; refused exactly if fewer are there or announced |
| Parsers.SkipTypedMessage | components/lightsnapcast/snapcast_protocol_parser.c:322-333 | passes over exactly the announced size |
| Dispatch.ProcessConsumes | main/main.c:998-1076 | every processed message consumes at least its header, so a connection ends |
| Dispatch.ProcessKeepsGate | main/main.c:1012-1047 | the flag is only on with a supported codec, and only a codec header turns it on |
| Dispatch.ReceivedIsNow | main/main.c:1008-1010 | a time message delivered is stamped with the time of its processing, in seconds and microseconds |
| Dispatch.ProcessIsLocal | main/main.c:998-1076 | a message that has been processed or refused does not depend on what follows in the stream |
| Dispatch.NotStarvedForLong | main/main.c:998-1076 | only the end of the stream starves a message: with enough bytes each is processed or refused |
| Dispatch.Client.ProcessData | main/main.c:998-1076 | the byte-pulling dispatch does to stream, codec state, carried chunk and deliveries what the message at the front of the stream calls for |
| Dispatch.Client.HandleChunkMessage | main/main.c:724-991 | hands a chunk to the decoder of the current codec, or to the player, and drops its reference; a chunk left over is dropped as well if there is no memory for what Opus decodes; the default branch is unreachable |
| Dispatch.Client.ConnectionLoop | main/main.c:1295-1303 | over a whole connection exactly the deliveries of its messages are added, in order; at its end all network buffers have been deleted exactly if the stream ended, while a refused message leaves one behind |
| Dispatch.Client.Reconnect | main/main.c:1132-1163 | clears the flag; codec and carried chunk survive |
| Protocol.CodecHeaderRoundTrip | components/lightsnapcast/snapcast_protocol_parser.c:181-250 | a codec header is recovered from its bytes and opens the gate for its codec |
| Protocol.ChunkRoundTrip | components/lightsnapcast/snapcast_protocol_parser.c:72-179 | a wire chunk is recovered from its bytes, for every codec and outcome of the allocation |
| Protocol.MessageRoundTrip | main/main.c:998-1076 | every well-formed message is recovered from its bytes, whatever follows, using exactly 26 + size bytes; a chunk left over disturbs PCM chunks only, and is kept unless an Opus chunk runs out of memory |
| Protocol.TypesOnTheWire | components/lightsnapcast/include/snapcast.h:12-23 | the numbers of the message types in the first bytes of a message |
| Protocol.WellFormedStaysInside | components/lightsnapcast/snapcast_protocol_parser.c:72-303 | for every message that announces what it carries all stores stay inside the buffers allocated for it |
| Protocol.MessagesRoundTrip | main/main.c:1295-1303 | any list of messages is recovered in order, and the stream is in step with what comes behind it |
| Protocol.Receive | main/connection_handler.c:241-398 | through the classes of connection, parser and dispatch: however the bytes of a list of messages are cut, a new connection delivers exactly that list |
| Protocol.ConnectionDecodesInOrder | main/main.c:1012-1029 | on every connection, whatever arrives, chunks only go to the decoder named by the latest codec header |
| Protocol.HeaderComesFirst | main/main.c:1016-1022 | no chunk is decoded before a codec header of the same connection named its decoder |
| Protocol.HttpGetTask | main/main.c:1132-1304 | the same for each of any number of connections, across reconnects |
| Protocol.LeftoverChunkIsDelivered | components/lightsnapcast/snapcast_protocol_parser.c:115-164 | what is delivered when a chunk is left over, and exactly when it is the right chunk: by size, by what was stored, by silence, with and without payload |
| Protocol.BrokenChunkIsLeftOver | components/lightsnapcast/snapcast_protocol_parser.c:125-127 | a connection that ends at any byte of a PCM payload leaves behind a chunk with the frames so far; the bytes are those of the message cut short |
| Protocol.WrongChunkAfterReconnect | main/main.c:1133-1163 | through the classes: header, chunk broken off anywhere, reconnect, header, chunk; the chunk delivered is wrong unless the leftover happens to fit |
| Protocol.TimeMessageKeepsStep | components/lightsnapcast/snapcast_protocol_parser.c:306-320 | after a time message the stream is in step exactly if the announced size is eight |
| TimeExchanges.BytesReport | main/main.c:1008-1061 | what is delivered for the bytes of a server's answer reports the exchange of time stamps it belongs to |
| TimeExchanges.EstimateFromBytes | main/main.c:220-232 | through the classes: the estimate made from these bytes is within half the round trip and a microsecond of the true offset |
| PlayerSync.Player.StartSync | components/lightsnapcast/player.c:1628-1721 | a hard sync empties both filters and restarts the count of frames; a correction not yet made survives |
| PlayerSync.Player.WriteChunk | components/lightsnapcast/player.c:1791-1963 | frames sent, movement of the time stamp and remaining correction, with and without payload |
| PlayerSync.Player.WriteSilence | components/lightsnapcast/player.c:1950-1960 | a frame of zeros per frame of the chunk, but 2^30 for an empty chunk, whose size wraps around |
| PlayerSync.SilenceEnds | components/lightsnapcast/player.c:1950-1960 | the number of writes after which the loop ends: never for a size that is not whole frames, as many as frames for others, 2^30 for none |
| PlayerSync.Player.PlayChunk | components/lightsnapcast/player.c:1784-2052 | the error of the chunk, the filters' new history, a hard resync exactly if no chunk waits or 50 of the last 99 errors are beyond 2 ms on one side, and otherwise the decision on the medians of the last 99 and 19 errors, computed by the median filter's class |
| PlayerSync.Player.ControlLoop | components/lightsnapcast/player.c:2037-2052 | decides on a repeated frame when early, on a left out one when late, by all three thresholds |
| PlayerSync.CorrectionNeedsMajority | components/lightsnapcast/player.c:2037-2052 | a minority of outliers among the last 99 or the last 19 errors never causes a correction, nor does an older error alone |
| PlayerSync.ResyncNeedsMajority | components/lightsnapcast/player.c:2003-2006 | nor does it cause a hard resync, unless the queue has run empty |
| PlayerSync.ResyncIsExact | components/lightsnapcast/player.c:2003-2006 | a hard resync exactly if no chunk waits, or at least 50 of the last 99 errors are above 2 ms, or as many below -2 ms |
| PlayerSync.CorrectionIsExact | components/lightsnapcast/player.c:2037-2052 | a frame is repeated exactly if 50 of the last 99 errors are below -128 µs, 10 of the last 19 below -64 and the newest too; left out exactly if the same holds above; never both |
| PlayerSync.ErrorIsLateness | components/lightsnapcast/player.c:1970-1989 | the end of a chunk is heard as much later than its time stamp and the buffer length say as the error is, by the estimated server clock, through DMA buffers and DAC |
| PlayerSync.SpeakersAgree | components/lightsnapcast/player.c:1970-1989 | two clients that play the same chunk with the same buffer length are, by the server's clock, as far apart as their errors, give or take the errors of their clock estimates, whatever their clocks, DMA buffers and DACs |
| PlayerSync.SilenceLooksLate | components/lightsnapcast/player.c:1942-1964 | a chunk without payload adds its own duration to its error, whatever correction is pending; an empty one adds that of 2^30 frames |
| PlayerSync.SilenceIsForgotten | components/lightsnapcast/player.c:1942-1964 | the chunks after it are as late as they would have been, and the pending correction still is; after an empty one they stay 2^30 frames later |
| PlayerSync.PlayerErrorIsStreamError | components/lightsnapcast/player.c:1970-1987 | for contiguous chunks and constant server offset the error depends on frames played and frames passed only |
| PlayerSync.ErrorIsNearlyExact | components/lightsnapcast/player.c:1804-1840 | all truncating divisions together cost less than 1 µs downwards and 2 µs upwards, 3 µs while a frame is repeated |
| PlayerSync.NextMoves | components/lightsnapcast/player.c:1793-1838 | a chunk moves the exact error by the correction made with it; a decision needs an error beyond 64 µs |
| PlayerSync.CorrectionsAreCounted | components/lightsnapcast/player.c:2037-2052 | over any run the exact error moves by one frame period per correction counted and made |
| PlayerSync.TruncationNeverAccumulates | components/lightsnapcast/player.c:1804-1987 | over any number of chunks, q frames inserted move the error by q frame periods to within 4 µs, and to within 3 µs on the side where no frame is being repeated; for q = 0 by at most 3 and 2 µs |
| PlayerSync.CorrectionShowsTwoChunksLater | components/lightsnapcast/player.c:1793-1838 | a pending correction leaves the error of the next chunk alone and moves that of the chunk after it by one frame period, up to truncation |
| PlayerSync.EarlyStep | components/lightsnapcast/player.c:2037-2052 | one chunk: the error with all pending corrections does not pass zero |
| PlayerSync.ErrorIsGrained | components/lightsnapcast/player.c:1809-1809 | truncation raises an error by at most two microseconds less two grains, a grain being gcd(10^6, sr) / sr microseconds |
| PlayerSync.LateStep | components/lightsnapcast/player.c:2037-2052 | the same from the other side |
| PlayerSync.OtherwiseCrosses | components/lightsnapcast/player.c:1793-1838 | a player that is neither early nor late, counting the pending correction, crosses zero with the next chunk |
| PlayerSync.EarlyStaysEarly | components/lightsnapcast/player.c:1784-2052 | for at least 31250 Hz, over any run: an early player never passes zero by correcting itself, and makes at most as many corrections as frame periods lie between it and zero |
| PlayerSync.LateStaysLate | components/lightsnapcast/player.c:1784-2052 | the same for a late player, if 63 sr + 2 gcd(10^6, sr) is at least 2 * 10^6 |
| PlayerSync.FastIsSafe | components/lightsnapcast/player.c:2037-2052 | both sides are safe at every rate from 31747 Hz on |
| SyncLimits.EarlySafetyIsExact | components/lightsnapcast/player.c:2037-2052 | no run from a hard sync, undisturbed by another one, takes an early player past zero, exactly if the rate is at least 31250 Hz; at every lower rate some run does |
| SyncLimits.LateSafetyIsExact | components/lightsnapcast/player.c:2037-2052 | no such run takes a late player past zero exactly if 63 sr + 2 gcd(10^6, sr) is at least 2 * 10^6 |
| SyncLimits.RepeatedFrameCostsMore | components/lightsnapcast/player.c:1812-1821 | the fourth microsecond is needed: an undisturbed run at 48 kHz from a hard sync that misses the 3 µs |
| PlayerSync.PlayContiguous | components/lightsnapcast/player.c:1784-2052 | the player's method takes the step of the stream |
| PlayerSync.PlayStream | components/lightsnapcast/player.c:1500-2124 | through the classes: all errors of a run that starts early are at most 2 µs, of one that starts late at least 0 µs, until a hard resync |
| ChunkConservation.SenderKeepsConserved | components/lightsnapcast/player.c:1350-1399 | every step of insert_pcm_chunk keeps each chunk in exactly one place |
| ChunkConservation.PlayerKeepsConserved | components/lightsnapcast/player.c:1584-1775 | so does every step of player_task, of the queue's destruction and of its creation |
| ChunkConservation.EveryChunkIsInOnePlace | components/lightsnapcast/player.c:354-383 | in every reachable state each chunk is in the hands of the network side, queued, held, freed once, or lost: exactly one of these |
| ChunkConservation.EndedMeansFreedUnlessSentLate | components/lightsnapcast/player.c:2098-2137 | when the player has ended by timeout and no insertion is under way, every chunk has been freed exactly once unless the run contains its send at a time when the queue had been found empty for deletion, or was gone; exactly those are lost |
| ChunkConservation.LostExactlyIfSentLate | components/lightsnapcast/player.c:362-377 | the same at any time: lost, or in a queue about to be deleted, exactly if sent too late |
| ChunkConservation.ReceivedInOrder | components/lightsnapcast/player.c:1350-1399 | chunks are received from the queue in the order in which they were handed over, and those still queued come after them |
| ChunkConservation.NobodyIsStuck | components/lightsnapcast/player.c:1350-1399 | in every reachable state the queue is within its capacity, an insertion gives up exactly if it is full, and neither side is stuck, unless the player waits for a chunk to preload |
| ChunkConservation.DrainDropsLate | components/lightsnapcast/player.c:1745-1775 | after a chunk that came too late exactly the number of chunks asked for is dropped from the front of the queue, or all there are |
| ChunkConservation.ChunkSentLateIsLost | components/lightsnapcast/player.c:362-377 | a run in which a chunk is lost this way |
| WebSocket.MaskingIsAnInvolution | components/websocket/websocket.c:75-81 | masking twice with the same key gives the payload back (section 5.3 of RFC 6455) |
| WebSocket.MaskedIsBitwise | components/websocket/websocket.c:75-81 | octet i of the masked data is the exclusive or, bit by bit, of octet i with octet i mod 4 of the key (section 5.3 of RFC 6455) |
| WebSocket.ExamplesOfTheStandard | components/websocket/websocket.c:83-160 | frame and headers of the examples in section 5.7 of RFC 6455 |
| WebSocket.BigEndianRoundTrip | components/websocket/websocket.c:126-143 | a length that fits is read back from its big-endian bytes |
| WebSocket.ShortestLengthForm | components/websocket/websocket.c:97-109 | no other form that can announce the length is shorter (section 5.2 of RFC 6455) |
| WebSocket.HeadRoundTrip | components/websocket/websocket.c:187-211 | FIN, opcode, length, key and start of the payload are read back from every header, also of fragments |
| WebSocket.WsClient.EncryptDecrypt | components/websocket/websocket.c:75-81 | masks the message in place and nothing behind it |
| WebSocket.WsClient.Send | components/websocket/websocket.c:83-160 | appends the frame of the message to what is sent |
| WebSocket.WsClient.Read | components/websocket/websocket.c:162-298 | a pending unfinished read only counts down; otherwise the frame is collected from as many buffers as it takes, or given up; whatever the first copy read behind its buffer is overwritten; a header cut by the end of its buffer leads to nothing but memory behind the buffer; fragments are kept count of and return nothing; each read lowers unread buffers plus unfinished reads by one, and by what it wastes when it gives up |
| WebSocket.WsClient.ReadOn | components/websocket/websocket.c:220-251 | takes further buffers until the frame is complete, counting them as unfinished reads, or gives up when there is none or one has too much |
| WebSocket.HeaderSeen | components/websocket/websocket.c:187-211 | the header read is that of the buffer alone exactly if the payload starts inside it |
| WebSocket.AnyNumberWasted | components/websocket/websocket.c:231-241 | for any n from 1 to 125 a read that gives up after n further buffers |
| WebSocket.FragmentsKeptUntilControlFrame | components/websocket/websocket.c:256-298 | of a fragmented text or binary message with control frames in between, exactly what comes before the first control frame is kept |
| WebSocket.CollectExactly | components/websocket/websocket.c:220-251 | the pieces of a frame are collected to the last one and no further |
| WebSocket.FrameRoundTrip | components/websocket/websocket.c:162-298 | for every opcode, payload, key and cut, payload and opcode come back |
| WebSocket.ReadAll | components/websocket/websocket.c:176-298 | through the classes: one read per buffer returns every frame once, in order, and in the end nothing is unread or unfinished |
| WebSocketEvents.StepFits | components/websocket/websocket.c:176-251 | every arrival, receive call and return moves the balance of events and reads by exactly what goes astray |
| WebSocketEvents.EventsAreAnswered | components/websocket/websocket.c:176-251 | between reads, under every interleaving of arrivals and reads: arrivals minus reads are unread buffers plus unfinished reads plus what reads that failed have brought out of count |
| WebSocketEvents.CountIsRightUnlessGivenUp | components/websocket/websocket.c:225-241 | as long as each read gets its first buffer, the count is right exactly if no read has given up on a frame after taking more than that, and there are never too few events |
| WebSocketEvents.CountGoesWrong | components/websocket/websocket.c:231-241 | a run after which an event is left without a buffer |
| WebSocketEvents.ReturnAgrees | components/websocket/websocket.c:220-251 | a read that succeeds has taken the same buffers whenever they arrived |
| WebSocketEvents.GiveUpAgrees | components/websocket/websocket.c:231-241 | a read that gives up because of a buffer does so at the one the uninterrupted contract names |
| WebSocketEvents.ReadGoesOn | components/websocket/websocket.c:220-251 | a read under way returns exactly when its frame is complete, and else takes the next buffer if there is one |
| Improv.BuildRpcResponse | components/improv_wifi/improvWifi.cpp:395-418 | command, total length and length-prefixed strings, the lengths cut to eight bits, and the checksum if asked for |
| Improv.ChecksumAdds | components/improv_wifi/improvWifi.cpp:279-283 | the checksum of bytes put together is the sum of their checksums modulo 256, and that of one byte is the byte |
| Improv.CredentialsRoundTrip | components/improv_wifi/improvWifi.cpp:304-348 | name and password are recovered exactly if they fit with their length bytes into 255; otherwise the command is unknown |
| Improv.LoopEndsForBytes | components/improv_wifi/improvWifi.cpp:319-322 | the eight-bit counter of the checksum loop gets to n exactly if n is at most 255 |
| Improv.NeverReturns | components/improv_wifi/improvWifi.cpp:309-328 | so the parser does not return exactly for 257 and 258 bytes whose length byte is right |
| Improv.ParseImprovDataChecked | components/improv_wifi/improvWifi.cpp:304-348 | for all others it compares length byte and checksum and then yields the fields |
| Improv.CheckedRoundTrip | components/improv_wifi/improvWifi.cpp:316-328 | with a trailing checksum the strings are recovered exactly up to 253 bytes; at 254 and 255 the parser does not return |
| Improv.ImprovWiFi.HandleSerial | components/improv_wifi/improvWifi.cpp:13-26 | matched bytes, commands fired and errors reported after any bytes that stay inside the buffer |
| Improv.ImprovWiFi.ParseImprovSerial | components/improv_wifi/improvWifi.cpp:257-297 | acceptance of one byte, and the command or error at the checksum |
| Improv.ImprovWiFi.SendResponse | components/improv_wifi/improvWifi.cpp:380-393 | sends the frame of the response, its length cut to eight bits |
| Improv.AnySplit | components/improv_wifi/improvWifi.cpp:13-26 | feeding in pieces is feeding the whole |
| Improv.FrameCompletes | components/improv_wifi/improvWifi.cpp:257-297 | from a clear start a frame is matched to its end, and fires its command exactly if it is a call |
| Improv.WrongChecksumIsReported | components/improv_wifi/improvWifi.cpp:278-287 | a frame whose last byte is not its checksum fires nothing and is reported once |
| Improv.ExampleFrame | components/improv_wifi/improvWifi.cpp:257-297 | in numbers: a request for the current state, and that it fires as a call but not as a response |
| Improv.ExampleCalls | components/improv_wifi/improvWifi.cpp:304-348 | the commands in numbers: those without credentials, an unknown one, and the ones handled |
| Improv.OneCommandPerFrame | components/improv_wifi/improvWifi.cpp:13-297 | calls followed by newlines fire exactly one command each, in order, without errors |
| Improv.SecondFrameIsSkipped | components/improv_wifi/improvWifi.cpp:17-21 | without a separator the frame behind a handled call is not seen |
| Improv.StreamStaysInside | components/improv_wifi/improvWifi.cpp:18-18 | a stream of calls stays inside the buffer exactly if none has more than 119 bytes of data |
| Improv.Receive | components/improv_wifi/improvWifi.cpp:13-297 | through the classes, for all streams of calls that stay inside the buffer: in whatever pieces the bytes arrive, every call fires its command once, in order |
| DspHandOff.WriterStepFits | components/dsp_processor/dsp_processor.c:156-191 | every access by the writer leads towards what its call means, inside the mutex |
| DspHandOff.WriterStepIsNoticed | components/dsp_processor/dsp_processor.c:799-882 | a change to the active flow's parameters, or of the active flow, is always followed by a notification |
| DspHandOff.WorkerStepFits | components/dsp_processor/dsp_processor.c:299-332 | every read by the worker, also the unprotected ones of its first run, keeps the copy right or a notification pending |
| DspHandOff.RunFits | components/dsp_processor/dsp_processor.c:156-332 | so does every interleaving |
| DspHandOff.LastWriteWins | components/dsp_processor/dsp_processor.c:799-882 | what all calls mean together: the last write wins, flow by flow |
| DspHandOff.WorkerCatchesUp | components/dsp_processor/dsp_processor.c:299-332 | with no call under way and no notification pending, the worker holds the stored parameters of the active flow; active is the flow last made so, and every flow has the parameters last set for it |
| DspHandOff.OneRunSuffices | components/dsp_processor/dsp_processor.c:299-332 | while no call is under way one run of the worker, of at most 15 steps, ends with the copy right and no notification pending |
| DspHandOff.NobodyIsStuck | components/dsp_processor/dsp_processor.c:156-332 | whoever is inside a call can go on, or waits for the mutex of one who can |
| DacHandOff.RunFits | main/main.c:514-545 | the newest state under way is the stored one unless it is about to be sent; the hardware follows field by field |
| DacHandOff.DacCatchesUp | main/main.c:1310-1342 | with the queue empty and nobody inside, mute, volume and enabled of hardware, applied and stored state are the arguments of the last call that set them, or those of power-on |
| DacHandOff.CatchesUpAlone | main/main.c:1310-1342 | with no further calls all is applied after at most twelve steps |

## Left out

- Floating point: the time filter and its published values are real numbers; `round` is to the nearest integer, halves away from zero.
- Integer widths of clocks: differences and sums of 64-bit time stamps, and the sum inside `MEDIANFILTER_get_median`, are unbounded; wire fields, lengths and `size - 12` keep their 32 bits.
- PlayerSync.Player.PlayChunk: the error must stay below INT64_MAX, the marker of the median filters; PlayStream discharges this for any start that a clock can express.
- PlayerSync: 16-bit stereo only, because the code's frame size is the sum of channels and sample bytes; chunks of whole frames in one fragment (SilenceEnds says what others lead to); I2S writes complete because they wait forever.
- PlayerSync.SpeakersAgree: that frames leave the speaker at the nominal sample rate, as the code assumes; for chunks with payload and no correction pending (ErrorIsLateness covers those with one).
- PlayerSync.EarlyStaysEarly: starts behind the first, partly preloaded chunk after a hard sync, whose error the code computes differently, and holds for chunks with payload; the same goes for LateStaysLate.
- SyncLimits.EarlySafetyIsExact: in the runs that show the bound most chunks last one second and the frames played before the first of them are chosen freely, as a hard sync may leave them; the same goes for LateSafetyIsExact.
- ChunkConservation: allocation failure inside FreeRTOS queues, a forced kill of player_task, and the failure return of the I2S setup.
- ChunkConservation.EndedMeansFreedUnlessSentLate: a send to a deleted or NULL queue handle only loses its chunk in the model; what FreeRTOS does then is not part of it.
- Connections.Connection.ReceiveData: the callback before each receive, which sends time requests, and closing the network connection itself.
- Dispatch.Client.HandleChunkMessage: decoding by Opus and FLAC, the time stamp repair for FLAC, DSP processing and the notification of the player.
- Dispatch.Client.ProcessData: running out of memory restarts the device; the model always has memory for encoded data, codec payloads and settings, also for none at all.
- Parsers.ParseCodecHeaderMessage: what memory behind the name buffer holds once the announced length 0xFFFFFFFF has been read into it; NameStaysInside says when that happens.
- Parsers.ParseWireChunkMessage: what stores behind the buffer of encoded data do, and that the decoder is told the announced number of bytes; the same goes for the settings text of ParseServerSettingsMessage. EncodedStaysInside and SettingsStayInside say when there are any.
- Parsers.ReadPcm: what stores behind the payload buffer do; NewChunkStaysInside and LeftoverStaysInside say when there are any.
- The shifted bytes that the code combines with `|` never overlap, so integers are built by addition; `char` is taken as unsigned, as on this target.
- JSON bodies of hello and server settings are opaque bytes.
- WebSocketEvents: the first buffer of a frame holds its whole header.
- WebSocket.WsClient.Read: network buffers have one segment, allocations succeed, and a length that is read from behind the buffer could be a size of memory; of a fragmented message only the length kept is modelled, since the code never returns it; which buffers are deleted on the error paths is not tracked.
- Improv.ImprovWiFi.HandleSerial: what happens once bytes overrun the 128-byte buffer; StreamStaysInside says which streams do. ImprovTypes.h is not part of this model, its constants are those of the Improv serial standard.
- Improv.ImprovWiFi.ParseImprovSerial: what a fired command does (connecting, answering) is outside the model; only whether it is handled matters.
- DspHandOff: mutex and semaphore exist, and one task writes.
- Drivers, the user interface, settings storage, OTA, APLL tuning and the biquad filters would only add easy members or depend on code that is not there.
