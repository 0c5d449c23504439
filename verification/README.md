# Verified models of the TMSxx protocol stack

Dafny models of four parts of the TMSxx node software, with proofs of what they are for.
`dafny verify dfyconfig.toml` checks all of it.

**Frames and the receiver.** `Scanner.dfy` is the frame scanner, `Splitter.dfy` the reference:
how a whole byte stream falls into frames, with no buffers and no chunks. `Receiver.dfy` is the
receive handler as a state machine on values, one step for each call, with the small buffer, the
rescan loop, resynchronisation and the one-frame large buffer. `Connection.dfy` is the same
handler in its own form, fields changed in place and a loop. The centre of the project is that
the handler, for every byte stream and every way `recv` cuts it into reads, delivers exactly the
frames of the reference, as long as handling a frame leaves alone what lies behind it in the
buffer. `Glink.dfy` and `Sender.dfy` build frames and put them on a socket that
may take any part of what it is offered; `Delivery.dfy` and `Transfer.dfy` join both ends.
`Analyse.dfy` is what tms_Analyse does to the buffer it is called on.

**Conversions.** `Convert.dfy` describes a record as a layout of words, half-words and texts, and a
conversion in place as a permutation of byte positions. `Dispatch.dfy` (copying a frame to the
application), `Upgrade.dfy` (the firmware upgrade message) and the three files of the fibre-section
message with its embedded counts use it: `Fiber.dfy` its records and their converters,
`FiberWalk.dfy` the pointers, guards and conversions on a target with 32-bit addresses,
`FiberMessage.dfy` what memory holds afterwards and what undoes it.

**MD5.** `Md5Block.dfy` sets the unrolled block transformation against the step table of RFC 1321,
`Md5.dfy` the streaming context against the one-shot definition. `Md5Suite.dfy` works the digest of
"abc" from the test suite of the standard through all 64 steps.

**RAM log.** `RamLog.dfy`: an append stream cut into files of a fixed size, from every state the
log can be in, over any sequence of writes.

## Modelling decisions

- Memory is a sequence or array of bytes and the host is little-endian, so `htonl` on memory
  reverses four bytes. Wire words are explicit big-endian bytes.
- `recv` is an oracle that returns any 1 to `Room` bytes; `Receiver.AnyStreamArrives` shows that
  this leaves no stream out. `send` is an oracle with a finite script of partial counts, EAGAIN
  and errors, after which it takes everything, so every call that returns is covered.
- tms_Analyse gets a pointer into the receive buffer and the buffer is scanned on, so in the
  receiver it is an oracle that may rewrite all buffered bytes, differently at each call
  (`Receiver.Handler`). The invariants of the receiver hold for every oracle. That it delivers the
  frames of the reference needs that handling a frame leaves alone what is behind it
  (`Receiver.KeepsBehind`). `Analyse.dfy` decides for which frames the handlers of the node do:
  for every command but the fibre-section message exactly when the record of the command lies in
  the frame (`Analyse.KeepsExact`), and for every fibre-section message whose sections do.
- The application callbacks do not write to the buffer, as those in src/tms_app.c do not, and
  the tables of tms_Analyse are as initialised, since every call of tms_SetDoWhat is commented out.
- Allocating the large buffer succeeds, whatever length up to 2^31 - 1 the header declares.
- The bip buffer is one contiguous queue with a capacity: `Reserve` grants the smaller of what is
  asked and what is free, `GetContiguousBlock` gives everything, `DecommitBlock` drops a prefix.
  The copy at src/ep_app.c:381-388 relies on the contiguity. Under this contract the two branches
  at src/ep_app.c:355-359 and 365-368 are never taken, as a frame that is still incomplete lacks
  at least one byte.
- Where C gives a scan no meaning the model says so instead of excluding the input; the same holds
  for the `int32_t` sum of `glink_Send`. A scan has none when
  `datalen + 32` overflows, or when the two lengths of a header agree on a declared length under 4,
  whose tail tag would lie in front of the frame; a declared length of 0 would also remove nothing
  and scan for ever. Every pass of the rescan loop is defined and removes at least one byte exactly
  when neither is the case (`Receiver.FindProgress`), a run is defined exactly when the stream is
  (`Receiver.ChunkingIrrelevant`), and `Splitter.NoMeaning` is a concrete stream that is not.
- The target is 32-bit, as are the libraries in lib-armv7 and lib-x86: addresses, `size_t` and
  `unsigned long` wrap at 2^32. Pointers into a frame are offsets from its start; the address of
  the start is a parameter, and the memory known is what follows it. Where a pointer leads out of
  that memory the result is `Strayed`, `Lost` or `Astray`, and nothing is said of what C then does.
- In the RAM log the place of an "a+" stream before any output is left to the C implementation, so
  it is a constant of the model. If it is not the end of the file, an empty write to a file that is
  not empty sets `s_cur` to 0 (`RamLog.WriteAligned`), and the next write may overfill that file.
  The files are the packing of all bytes logged exactly when no such write does
  (`RamLog.RunExact`).
- Definitions that the model of the code and its specification share are tied to numbers: tags,
  lengths and verdicts of the scanner, the words and texts of every record, the commands of
  tms_Analyse, the constants, and one digest of the standard's test suite.
- MD5's bit counter is a pair of integers below 2^32; its registers are 32-bit vectors.

## Where the code and its comments disagree

- protocol/glink.c:326: `glink_FindFrame` never returns -1; an incomplete frame gives -3.
- protocol/glink.c:327-329: for fewer than 40 bytes the code returns -2 with the number of bytes
  that are missing, not a number of bytes to release (`Delivery.ShortBuffer`). The receive handler
  does not scan such a buffer.
- protocol/glink.c:154-156: `glink_Send` also returns -1 for a payload of 2^31 bytes or more on a
  socket in order, because the length comes back negative, and the tail tag is then not sent.
- protocol/glink.c:172-225: for a payload within 40 bytes of 2^31 the sum of the pieces overflows,
  which has no meaning in C.
- protocol/tmsxx.c:968-971: the handler of ID_SETOTDRFPGAINFO converts 32 bytes behind the base header
  with no look at the frame length. If the frame is shorter it changes the message behind it in
  the buffer: whether that is delivered then depends on how `recv` cuts the stream
  (`Analyse.NextLost`). The other handlers that convert in place do the same.
- protocol/glink.c:119-124: the branch for a closed socket is never taken, the first one covers 0.
- protocol/tmsxx.h:58-68: CHECK_PTR multiplies in 32 bits. It is right about the records exactly
  when the address of the last one does not wrap, or wraps behind the last address it may have
  (`FiberWalk.CheckPtrExact`). `FiberWalk.GuardWraps` is a count that it wrongly accepts; the
  record loop then leaves memory (`FiberWalk.RecordsLeave`).
- protocol/tmsxx.c:443-447: the record loop counts in `int`, so a fibre count with its top bit set
  is accepted like the count without that bit, the call succeeds, and the records stay in wire
  order (`FiberWalk.HighCountSkips`).
- protocol/tmsxx.c:501-507: so does the sample loop, and no guard looks at the sample count
  (`FiberWalk.HighSamplesSkip`).
- protocol/tmsxx.c:1131-1155: the guards compare with the end of the frame and not of the payload, so
  the events may run into the four bytes of the tail tag, which the conversion then changes
  (`FiberMessage.TailExact`); `FiberMessage.TailTurned` is a frame whose tail tag becomes a head tag.
- protocol/tmsxx.c:353: the digest is looked for at a file length that nothing checks.
- ramlog/ramlog.c:319: after a write that overfilled a file the count given to `fwrite` is negative
  (`RamLog.EmptyWriteOverfills`).

## Model

| member | source | states |
|---|---|---|
| Scanner.FindFrame | protocol/glink.c:336-412 | the scanner with its search loop computes the verdict of the specification function for every buffer |
| Scanner.FindAtHead | protocol/glink.c:378-410 | every verdict on a buffer that starts with a head tag, from the bytes of the tags and the two signed length words alone |
| Scanner.FindInNoise | protocol/glink.c:356-377 | every other buffer is given up to its first head tag or to its last four bytes |
| Scanner.FindShort | protocol/glink.c:340-345 | fewer than 40 bytes give -2 and the number that is missing |
| Scanner.FirstHead | protocol/glink.c:358-375 | noise is given up only to the first head tag, or to the last four bytes, and no tag begins in what is given up |
| Scanner.ScanKeepsHeads | protocol/glink.c:356-390 | giving up noise or a head with disagreeing lengths discards no other head tag and always keeps an untested last four bytes |
| Splitter.SplitExtends | src/ep_app.c:296-345 | splitting is incremental: later bytes only add frames after those found, and a stream that lost its meaning stays so |
| Splitter.SplitDecomposes | src/ep_app.c:317-346 | for any stream the frames found run from head to tail tag, have the length they declare, and lie in the stream one after another without overlap |
| Splitter.SplitWhole | protocol/glink.c:400-408 | a complete frame at the front is delivered, or dropped whole when its tail tag is missing |
| Splitter.SplitDisagreeing | protocol/glink.c:387-390 | a head tag whose two lengths disagree, whatever they are, costs its four bytes and nothing else |
| Splitter.FramelessExact | protocol/glink.c:356-390 | no frame starts in given bytes if and only if every head tag there with a header behind it has lengths that disagree |
| Splitter.SplitResyncs | protocol/glink.c:356-390 | bytes in which no frame starts, with or without head tags whose lengths disagree, are stepped over to the next head tag |
| Splitter.SplitFrameless | protocol/glink.c:356-390 | a stream in which no frame starts gives none and has a meaning |
| Splitter.NoMeaning | protocol/glink.c:383-403 | a concrete header with declared length 0 and agreeing lengths for which the scan reads in front of the frame |
| Receiver.FindProgress | src/ep_app.c:296-345 | a pass that jumps back removes between 1 and all buffered bytes, and the scan is defined if and only if the header is |
| Receiver.OnePass | src/ep_app.c:296-393 | each pass that jumps back leaves strictly fewer buffered bytes, so the rescan loop ends |
| Receiver.FindSplits | protocol/glink.c:356-408 | one scan of a buffer does to the stream what the reference does, whatever bytes follow |
| Receiver.RescanValid | src/ep_app.c:296-393 | the whole rescan of the small buffer leaves the invariant, whatever tms_Analyse does to the buffered bytes |
| Receiver.RescanSmall | src/ep_app.c:296-393 | the whole rescan of the small buffer refines the reference for every continuation, if tms_Analyse keeps what is behind the frames |
| Receiver.LargeStays | src/ep_app.c:272-285 | in large mode a read that does not complete the frame only gathers bytes and counts down |
| Receiver.LargeEnds | src/ep_app.c:286-293 | the read that completes a large frame delivers it or drops it whole and returns to the empty small buffer |
| Receiver.ReceiveValid | src/ep_app.c:215-416 | one call in any reachable mode leaves a valid state, whatever tms_Analyse does to the buffer |
| Receiver.ReceiveRefines | src/ep_app.c:215-416 | one call in any reachable mode refines the reference, whatever arrives later, if tms_Analyse keeps what is behind the frames |
| Receiver.NeverStalls | src/ep_app.c:245-271 | between calls there is room for at least one byte and a read never crosses the end of a large frame |
| Receiver.RunAsks | src/ep_app.c:245-253 | over every run the handler asks for 400 bytes until 40 have come in, and for 40 from then on |
| Receiver.RunRefines | src/ep_app.c:215-416 | any run of calls from any valid state refines the reference for every continuation, if tms_Analyse keeps what is behind the frames of the stream |
| Receiver.ChunkingIrrelevant | src/ep_app.c:215-416 | if tms_Analyse keeps what is behind the frames of the stream, the frames delivered are those of the reference on the joined stream for every chunking, and the run is defined if and only if the stream is |
| Receiver.LargeInvariant | src/ep_app.c:249-292 | over every run in large mode, whatever tms_Analyse does, the small buffer is empty, the large one is a proper prefix of one frame of over 30000 bytes, its size plus the countdown is the declared length, and the next read asks for exactly what is missing |
| Receiver.SmallInvariant | src/ep_app.c:305-370 | over every run in small mode, whatever tms_Analyse does, the residue is under 40 bytes or an incomplete frame that fits into 30000, and how much the next read asks for |
| Receiver.AnyStreamArrives | src/ep_app.c:263-271 | every stream can be received from every valid state |
| Connection.Connection.constructor | src/ep_app.c:42-69 | a new connection is in the initial state and has delivered nothing |
| Connection.Connection.OnRecv | src/ep_app.c:215-416 | the handler changes its fields as the state machine does for every tms_Analyse, and appends exactly the frames the reference finds in the bytes at hand if tms_Analyse keeps what is behind them |
| Connection.Connection.Analyse | src/ep_app.c:317-327 | tms_Analyse is called where the frame lies and leaves in the buffer what it makes of the bytes behind |
| Connection.Connection.Rescan | src/ep_app.c:296-409 | the loop at the label _Again computes all passes of the state machine |
| Connection.Connection.EnlargeBuffer | src/ep_app.c:370-390 | the large buffer takes over exactly the bytes received of the frame and the countdown is what is missing |
| Connection.Connection.ReleaseBuffer | src/ep_app.c:396-407 | a finished large buffer is swapped out and released, otherwise nothing changes |
| Glink.GlinkBase.Fill | protocol/tmsxx.c:122-138 | the header gets the given address triple, or the defaults |
| Glink.GlinkBase.Build | protocol/glink.c:44-74 | after building, the memory of the struct is the 32-byte wire header for the address it held |
| Sender.Socket.SendSerial | protocol/glink.c:80-128 | under any partial writes and EAGAIN a normal return has emitted exactly the input and -1 a proper prefix |
| Sender.Socket.SendFrame | protocol/glink.c:165-232 | a nonnegative result is the frame length with the whole frame emitted, -1 a proper prefix; a reliable socket gives the length whenever int32_t can hold it, beyond that the sum has no meaning in C, and from 2^31 bytes on the frame is never finished |
| Sender.Socket.SendHead | protocol/glink.c:244-275 | 36 and the head tag with the header emitted, or -1 and a proper prefix |
| Sender.Socket.SendTail | protocol/glink.c:286-304 | 4 and the tail tag emitted, or -1 and a proper prefix |
| Sender.Socket.SendPieces | protocol/glink.c:234-304 | head, any number of pieces and tail put on the wire what one glink_Send of the joined payload puts there |
| Sender.Socket.SendMsg | protocol/tmsxx.c:1076-1093 | fill, build and send emit exactly the encoded message and return its declared length |
| Delivery.EncodeFields | protocol/glink.c:44-74 | every field of an encoded message reads back at the offset where the receiver looks for it |
| Delivery.EncodedFrame | protocol/glink.c:336-412 | an encoded message is accepted at its declared length whatever bytes follow, and splits off whole |
| Delivery.ShortBuffer | protocol/glink.c:326-345 | one byte short of 40 the scanner asks to give up a byte that begins a head tag, against its comment |
| Delivery.NoStraddle | protocol/glink.c:356-377 | the tag bytes have no border: no tag straddles tag-free noise and a following frame |
| Delivery.TagFreeNoise | protocol/glink.c:356-377 | noise without head tags is noise in which no frame starts, whatever message follows |
| Delivery.RejectedHead | protocol/glink.c:379-390 | a head tag with any header whose lengths disagree is such noise, too |
| Delivery.SplitStream | protocol/glink.c:336-412 | the reference finds exactly the messages sent, between any noise in which no frame starts, and then what it finds in the bytes behind them |
| Delivery.Delivered | src/ep_app.c:215-416 | end to end, for all messages of any size whose handling leaves alone what is behind them, noise with and without rejected head tags, and chunkings, the frames delivered are a prefix of those sent and all of them once all bytes are in |
| Transfer.SendMsgs | protocol/glink.c:152-232 | on any socket a sequence of messages puts the first n of them on the wire whole and then at most a part of one more, all of them if the socket is reliable |
| Transfer.PartWaits | protocol/glink.c:392-398 | a message that has not arrived whole gives no frame |
| Transfer.Transferred | src/ep_app.c:215-416 | for any messages, any socket and any chunking of what it has taken, the frames delivered are a prefix of the messages sent whole, and exactly these once everything on the wire is in |
| Analyse.SetOTDRFPGAInfo | protocol/tmsxx.c:959-977 | the record of ID_SETOTDRFPGAINFO is converted, whatever the frame length |
| Analyse.TmsAnalyse | protocol/tmsxx.c:1761-1908 | for every memory: the handler of the command and tms_Copy2Use run as the tables say, unless that leaves memory |
| Analyse.OtherCommands | protocol/tmsxx.c:1543-1617 | every command without an entry, or whose entry says nothing or a callback without a record, leaves memory as it is |
| Analyse.FixedHeader | protocol/tmsxx.c:1543-1617 | for each command with a record of fixed size: how much memory it needs, and that the base header then reads its wire values and nothing behind the record changes |
| Analyse.OneWordRead | protocol/tmsxx.c:1202-1244 | for 0x80000005 to 0x80000007 and 0x80000020 the word at 36 reads its wire value |
| Analyse.EightWordsRead | protocol/tmsxx.c:1440-1459 | for 0x80000014 and 0x80000015 the eight words from 36 to 64 do |
| Analyse.FpgaInfoRead | protocol/tmsxx.c:959-977 | for 0x20000000 the words at 36, 40, 44 and 64 do, and the text between them is unchanged |
| Analyse.FiberRead | protocol/tmsxx.c:1113-1198 | for a well-formed fibre-section message the message and the base header are in host order |
| Analyse.FiberTurnedDown | protocol/tmsxx.c:1131-1139 | for one the first guard rejects only the base header is |
| Analyse.BehindFrame | protocol/tmsxx.c:1761-1908 | for every memory and command with a record of fixed size nothing behind the frame changes if and only if each field of the record lies in the frame or is the same backwards as far as it does not |
| Analyse.KeepsExact | protocol/tmsxx.c:1761-1908 | a frame with such a command leaves alone whatever is behind it if and only if the record lies in the frame or the command converts nothing |
| Analyse.KeepsInNumbers | protocol/tmsxx.c:1543-1617 | the same as frame lengths: 68 bytes for three commands, 40 for four, any for all others |
| Analyse.FiberKeeps | protocol/tmsxx.c:1113-1198 | so does a well-formed fibre-section message |
| Analyse.LongPayload | protocol/tmsxx.c:959-977 | 28 bytes of payload suffice for every command but the fibre-section message |
| Analyse.HarmlessExact | protocol/tmsxx.c:1543-1617 | a message can do harm only with one of three commands and fewer than 28 bytes of payload, fibre-section messages aside |
| Analyse.DeliveredToNode | src/ep_app.c:215-416 | end to end with the handlers of the node, for messages whose handling stays in their frames |
| Analyse.NextLost | protocol/tmsxx.c:959-977 | two messages without payload, the first ID_SETOTDRFPGAINFO: read one by one both are delivered, read at once the second is lost |
| Analyse.SomeAnalyse | protocol/tmsxx.c:1761-1908 | there is such a handler wherever the buffer lies |
| Convert.AfterConcat | protocol/tmsxx.c:1159-1187 | converting one region and then the next is converting both |
| Convert.AfterInvolution | protocol/tmsxx.c:391-541 | converting memory twice restores it, for every layout |
| Convert.AfterFields | protocol/tmsxx.c:391-541 | after a conversion every number reads its wire value in host order and every text is unchanged |
| Convert.AfterOutside | protocol/tmsxx.c:391-541 | no byte outside the converted region changes |
| Convert.BehindKept | protocol/tmsxx.c:391-541 | a conversion leaves everything from a place on alone if and only if each field lies in front of it or is the same backwards as far as it does not |
| Convert.SwapWord | protocol/tmsxx.c:406 | storing htonl of a word in place is converting that word |
| Convert.SwapHalf | protocol/tmsxx.c:503 | storing htons of a half-word in place is converting that half-word |
| Convert.ConvNx4Byte | protocol/tmsxx.c:391-410 | the loop converts exactly the whole words of the count and nothing else |
| Dispatch.Copy2Use | protocol/tmsxx.c:878-936 | for every memory: the base header is converted in place and the callback is shown as many bytes from the command word on as the data length says, unless that leaves memory |
| Dispatch.ShownExact | protocol/tmsxx.c:922-929 | the bytes shown are those from 28 on, as many as the data length says, unless it is negative or leads out of memory |
| Dispatch.BaseFields | protocol/tmsxx.c:912-920 | every header field reads its wire value, tag and payload are unchanged |
| Dispatch.CopyRoundTrip | protocol/tmsxx.c:878-936 | from an encoded message the application gets source, destination, packet id, command and exactly the payload |
| Upgrade.Update | protocol/tmsxx.c:233-297 | on a reliable socket the upgrade message for any file is emitted exactly, with the declared length it has |
| Upgrade.AnalyseUpdate | protocol/tmsxx.c:344-379 | for every memory: the header is converted in place, and the digest is taken from behind the file, by a length nothing checks, unless that leaves memory |
| Upgrade.ReportedExact | protocol/tmsxx.c:353 | the digest is the 32 bytes at 68 plus the file length, modulo 2^32, or leads out of memory |
| Upgrade.HostFields | protocol/tmsxx.c:357-360 | memory afterwards has the four words at 36, 40, 44 and 64 in host order and every other byte unchanged |
| Upgrade.UpdateRoundTrip | protocol/tmsxx.c:233-379 | for any file the analysis stays in memory, reports board, target and length, and finds the digest right behind the file bytes |
| Fiber.FiberValSize | protocol/tmsxx.h:243-259 | field offsets and size of a fibre record |
| Fiber.RecordSizes | protocol/tmsxx.h:238-306 | sizes of the other records |
| FiberWalk.CheckPtrExact | protocol/tmsxx.h:66-68 | the guard is right about the records if and only if the address of the last one stays below 2^32 or wraps to one behind the last it may have, and it never rejects records that fit |
| FiberWalk.GuardWraps | protocol/tmsxx.h:66-68 | a fibre count that the guard accepts at every address and for every frame of 380 bytes or more, though no frame can hold the records |
| FiberWalk.LocateExact | protocol/tmsxx.c:1130-1156 | a message with three counts whose sections end inside the frame is always located with those counts, and a message the guards accept is of this kind if and only if no address of its sections wraps |
| FiberWalk.WalkEnds | protocol/tmsxx.c:1130-1156 | for every memory, in numbers: which of the guards rejects a message, which header does not lie in memory, or which three counts are found |
| FiberWalk.Partition | protocol/tmsxx.c:1130-1156 | the computed pointers cut the data into eight consecutive sections without gap or overlap, for any three counts |
| FiberWalk.FindSections | protocol/tmsxx.c:1130-1156 | for every memory the pointer arithmetic and the guards end as the walk does, with its pointers |
| Fiber.ConvFiberRecords | protocol/tmsxx.c:436-464 | the loop converts the numbers of as many records as its header says in host order, none if that count is negative as an int, and passes over the texts |
| Fiber.ConvSamples | protocol/tmsxx.c:489-508 | the loop converts as many 16-bit samples as its header says in host order |
| Fiber.ConvEvents | protocol/tmsxx.c:521-541 | the loop converts the words of the events its header counts, their number computed in 32 bits |
| Fiber.EventWords | protocol/tmsxx.c:531-540 | six words in a row for each event are the event records |
| Fiber.LoopBounds | protocol/tmsxx.c:443-535 | the record and sample loops run as often as the count says, or not at all if it is negative as an int, the word loop as often as the wrapped size of the events says |
| Fiber.ConvHeader | protocol/tmsxx.c:430-435 | the count of a header is converted in place, its name is passed over |
| FiberWalk.HeaderCount | protocol/tmsxx.c:1159-1186 | a converted header holds its wire count in host order, which bounds the next loop |
| Fiber.ConvParam | protocol/tmsxx.c:466-471 | the seven words behind the name are converted |
| Fiber.ConvResult | protocol/tmsxx.c:473-478 | the three words between the texts are converted |
| FiberWalk.AnalyseFiberSectionCfg | protocol/tmsxx.c:1113-1198 | for every memory, by numbers alone: -1 with memory as it was when a guard fails on a count whose header lies in memory; else it is converted section by section, with loop bounds read from the headers just converted, unless that leaves memory; a well-formed one is converted whole and nothing else is |
| FiberWalk.SectionsWellFormed | protocol/tmsxx.c:1159-1187 | on a well-formed message the conversions one after another convert its layout as a whole |
| FiberWalk.RecordsLeave | protocol/tmsxx.c:436-464 | the record loop leaves memory if and only if it counts more records than memory holds |
| FiberWalk.HighCountSkips | protocol/tmsxx.c:443-447 | a fibre count with its top bit set is accepted like the one without it, everything but the records is converted, and the call succeeds |
| FiberWalk.HighSamplesSkip | protocol/tmsxx.c:489-508 | the same with the sample count: everything but the samples is converted |
| FiberMessage.FiberField | protocol/tmsxx.c:436-464 | each field of each fibre record, at its address, holds its wire value or its text |
| FiberMessage.SectionPlaces | protocol/tmsxx.c:1130-1156 | the place of every section in numbers |
| FiberMessage.FiberRecordWords | protocol/tmsxx.c:436-464 | in each fibre record the words at 0, 4, 136, 204, 272, 276, 280 and 284 read their wire values and the bytes between them are unchanged |
| FiberMessage.SampleField | protocol/tmsxx.c:489-508 | each sample, at its address, holds its wire value |
| FiberMessage.EventField | protocol/tmsxx.c:521-541 | each field of each event, at its address, holds its wire value |
| FiberMessage.EventWordsAt | protocol/tmsxx.c:521-541 | in each event all six words read their wire values |
| FiberMessage.ParamField | protocol/tmsxx.c:466-471 | each field of the test parameters holds its wire value or its text |
| FiberMessage.ParamWords | protocol/tmsxx.c:466-471 | in the test parameters the seven words behind the 20 bytes of the name read their wire values |
| FiberMessage.ResultField | protocol/tmsxx.c:473-478 | each field of the test result holds its wire value or its text |
| FiberMessage.ResultWords | protocol/tmsxx.c:473-478 | in the test result the words at 20, 24 and 28 read their wire values and the texts around them are unchanged |
| FiberMessage.HeaderWords | protocol/tmsxx.c:430-515 | in each header the count reads its wire value and the name is unchanged |
| FiberMessage.CountsKept | protocol/tmsxx.c:1159-1186 | a converted message tells the same three counts in host order |
| FiberMessage.Undo | protocol/tmsxx.c:1159-1187 | converting the sections that a converted message tells of restores the received message byte for byte |
| FiberMessage.UndoMessage | protocol/tmsxx.c:1159-1187 | running the converters on a converted message, each array before the header that counts it in host order, ends with the received memory |
| FiberMessage.OutsideKept | protocol/tmsxx.c:1159-1187 | bytes in front of and behind the sections are unchanged |
| FiberMessage.InPayload | protocol/tmsxx.c:1131-1155 | the eight sections lie in the payload, in front of the tail tag, if and only if they end there |
| FiberMessage.TailExact | protocol/tmsxx.c:1131-1187 | the tail tag of a well-formed message survives the conversion if and only if the sections end in front of it or move into it the bytes it has; at the end of the frame it becomes a head tag, and only events reach it |
| FiberMessage.TailTurned | protocol/tmsxx.c:1131-1187 | a sendable message whose frame is located and whose tail tag the conversion turns into a head tag |
| FiberMessage.WrappingAccepted | protocol/tmsxx.c:1131-1187 | a sendable message that both guards accept wherever it lies, though converting its records leaves memory |
| Md5Block.Round1 | protocol/md5.cpp:178-194 | the 16 unrolled steps are steps 0 to 15 of the table of RFC 1321 |
| Md5Block.FSelects | protocol/md5.h:50 | F takes each bit from y or z by x |
| Md5Block.GSelects | protocol/md5.h:51 | G takes each bit from x or y by z |
| Md5Block.HParity | protocol/md5.h:52 | H has a 1 where one argument has it, or all three |
| Md5Block.IDiffers | protocol/md5.h:53 | I differs from y except where z has a 1 and x a 0 |
| Md5Block.Round2 | protocol/md5.cpp:196-212 | the 16 unrolled steps are steps 16 to 31 of the table |
| Md5Block.Round3 | protocol/md5.cpp:214-230 | the 16 unrolled steps are steps 32 to 47 of the table |
| Md5Block.Round4 | protocol/md5.cpp:232-248 | the 16 unrolled steps are steps 48 to 63 of the table |
| Md5Block.Transform | protocol/md5.cpp:172-257 | the unrolled transformation is the compression of section 3.4 of RFC 1321 |
| Md5Block.Encode | protocol/md5.cpp:260-271 | the loop stores the words low-order octet first and touches nothing behind them |
| Md5Block.Decode | protocol/md5.cpp:273-282 | the loop reads the words low-order octet first |
| Md5Block.EncodeDecode | protocol/md5.cpp:260-282 | decoding what was encoded gives the words back |
| Md5Block.DecodeEncode | protocol/md5.cpp:260-282 | encoding what was decoded gives the octets back, for lengths divisible by 4 |
| Md5.Context.constructor | protocol/md5.cpp:40-48 | a new context has taken in nothing |
| Md5.CountUp | protocol/md5.cpp:57-60 | the two counter words with the carry test stay 8 times the octets fed, modulo 2^64 |
| Md5.IndexOfCount | protocol/md5.cpp:54-55 | the index taken from the low counter word is the number of buffered octets |
| Md5.Context.Update | protocol/md5.cpp:50-80 | after any update the registers are the fold over all full blocks, the buffer holds the octets after them, and the counter is right |
| Md5.Context.Blocks | protocol/md5.cpp:65-74 | the block loop takes in every full block of buffered and new octets and stops at the last |
| Md5.Context.Pad | protocol/md5.cpp:102-111 | padding feeds exactly the padded form of sections 3.1 and 3.2 of RFC 1321 and ends on a block boundary with nothing buffered |
| Md5.Context.Final | protocol/md5.cpp:97-120 | the digest stored is that of RFC 1321 for all octets fed, and the context is wiped |
| Md5.MD5Int | protocol/md5.cpp:143-160 | the digest of one buffer is that of RFC 1321 |
| Md5Suite.InitialOctets | protocol/md5.cpp:43-46 | the initial registers are the octets of section 3.3 of RFC 1321 |
| Md5Suite.DigestOfAbc | protocol/md5.cpp:50-257 | the digest of "abc" is the one in section A.5 of RFC 1321 |
| Md5.DigestOfPieces | protocol/md5.cpp:50-120 | for any split of a message into successive updates the digest is that of the whole message |
| Md5.PaddedLength | protocol/md5.cpp:106-111 | the padded form is a whole number of blocks for every message length |
| Md5.PadLength | protocol/md5.cpp:106-108 | the pad length computed from the index is the one of section 3.1 of RFC 1321 |
| Md5.LengthFromCounts | protocol/md5.cpp:102-111 | the octets encoded from the two counter words are the length of section 3.2 of RFC 1321, digit by digit |
| Md5.LengthAt | protocol/md5.cpp:102-111 | each length octet is, as a number, a base-256 digit of the length in bits |
| Md5.ToWordValue | protocol/md5.cpp:54-60 | the machine word of a counter word has its value |
| Md5.PaddedInjective | protocol/md5.cpp:102-111 | two messages under 2^61 octets with the same padded form are the same |
| RamLog.RamLog.constructor | ramlog/ramlog.c:219-265 | a new log has one empty file, id 0 and a file size of at least 4 KiB |
| RamLog.RamLog.OneFile | ramlog/ramlog.c:295-312 | the bytes are appended to the current file and to no other |
| RamLog.RamLog.MultiFile | ramlog/ramlog.c:314-342 | from every state the files and s_cur become those of the value-level write, or the call gives fwrite a negative count |
| RamLog.WriteAligned | ramlog/ramlog.c:314-342 | when s_cur is the length of the last file the write goes on with the packing, and s_cur stays so if and only if the write is not empty, or append streams start at the end, or the last file is empty |
| RamLog.WriteConserves | ramlog/ramlog.c:314-342 | from every state a write fails if and only if s_cur is over the file size, and else appends exactly its bytes, changes no file but the last, and opens new ones of at most the file size if and only if the bytes do not fit |
| RamLog.PackAppend | ramlog/ramlog.c:314-342 | packing can go on from the last file |
| RamLog.ChunkIndependent | ramlog/ramlog.c:314-342 | logging a and then b leaves the same packing as logging both in one call |
| RamLog.ChunkExact | ramlog/ramlog.c:314-342 | logging a and then b leaves the same files, ids and s_cur as logging both in one call, if and only if neither is empty or the empty one does no harm |
| RamLog.RunExact | ramlog/ramlog.c:314-342 | any sequence of writes leaves the packing of all bytes logged, with s_cur right, if and only if no write that follows an empty one overfills a file |
| RamLog.TidyWrites | ramlog/ramlog.c:314-342 | writes that are not empty always meet that condition, and so do all writes if append streams start at the end |
| RamLog.LogRun | ramlog/ramlog.c:219-342 | a new log after any sequence of writes has the packing if and only if the condition holds, and then s_cur is the last length and curid + 1 the rounded-up quotient |
| RamLog.EmptyWriteOverfills | ramlog/ramlog.c:314-342 | two writes of the least file size with an empty one between them end up in one file, and the next call gives fwrite a negative count |
| RamLog.PackShape | ramlog/ramlog.c:314-342 | the files in order are the bytes logged, all but the last are exactly full and none is overfull |
| RamLog.PackCount | ramlog/ramlog.c:323-336 | the number of files is one, or the bytes logged divided by the file size, rounded up |

## Left out

- Bip-buffer internals: their bodies are not part of this model; the wrapped second region and the linearising calls are covered by the contract above.
- epoll, threads, mutexes, accepting and closing connections, and `recv` returning 0 or an error: operating-system plumbing.
- A `send` that answers EAGAIN for ever: the call does not return and nothing is said of it.
- The application callbacks, which print, and the texts tms_Analyse prints: what they show, beyond the bytes tms_Copy2Use hands over, plays no part.
- Receiver.ChunkingIrrelevant, Delivery.Delivered and what follows from them say nothing of a stream with a frame whose handling changes the bytes behind it, but for the input of Analyse.NextLost.
- Analyse.FiberKeeps: says nothing of fibre-section messages that are not well-formed; whether those are rejected depends on where in memory they lie and on the bytes behind them.
- `tms_OTDRBasicInfo`, `tms_RetStatusData`, `tms_CheckoutResult`, `tms_SetDoWhat`, `tms_SelectContextByFD`: their bodies do not settle an intended contract.
- Converters with different source and destination buffers: every call converts in place.
- Floats: converted as the 32-bit words they occupy; their values play no part.
- FiberWalk.AnalyseFiberSectionCfg: requires that the frame lies in memory, that memory does not wrap around the address space and is not on its first 288 bytes; of a run that leaves memory it says only that it does.
- Upgrade.Update: the 32 digest bytes are a parameter, because the build leaves them unset unless USE_MD5 is defined; their hexadecimal printing is not modelled.
- Md5.Context.Update: requires that `i + 63` does not wrap, that is, fewer than 2^32 - 63 octets in one update.
- Md5.MD5Int: the same for its buffer.
- Md5.DigestOfPieces: the same for each piece.
- Transfer.SendMsgs: stops at the first message the socket does not take whole, since the documentation of glink_Send calls the descriptor invalid then; who goes on sending puts messages behind a part of one.
- `MD5Final` without a digest, `CMD5::MD5` and the hexadecimal text: dead or disabled code.
- Upgrade.AnalyseUpdate: the digest is read as 32 bytes, where the C code prints it as a string up to a zero byte.
- RamLog.RamLog.MultiFile: I/O succeeds and the byte count is the length of the text, so the -1 of a failing `vsnprintf` is not modelled, nor are the directory-size limit, the shell commands, the fork and the time stamp in the file name.
