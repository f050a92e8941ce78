# coalago, modelled and verified

This project models the parts of the coalago CoAP library that are hard to get right, and proves what they promise.
`dafny verify dfyconfig.toml` checks all of it. Paths below are relative to the root of the coalago repository.

* **The selective-repeat ARQ** that carries bodies of more than 1024 bytes, in both directions (Block1: client to
  server, Block2: server to client). `ArqSender.dfy` gives the sender as functions from state to state,
  `ArqTransport.dfy` runs the loops of `transport.go` on an array of packets and in-place counters and is proved to
  compute those functions, `ArqSenderProofs.dfy` proves what every step keeps against any peer and `ArqSenderExact.dfy`
  what it does to the packet, `ArqReceiver.dfy` and `Fragmentation.dfy` are the receiver's buffer and the cutting and
  gluing of bodies. `ArqSystem.dfy` puts sender,
  receiver and network together: the network is everything ever written, and any of it may be delivered at any time,
  any number of times or never, while the server's local state may expire, be deleted and be made anew. Safety is proved
  for all these runs; `ArqAgreement.dfy` adds what holds while one receiver serves the transfer. `ArqLossless.dfy` shows
  that these runs are not empty promises, and `ArqStranding.dfy` that the conditions of the agreement are needed.
* **The datagram codec and its checksum** (`Codec.dfy`, `CodecProofs.dfy`, `CodecAcceptance.dfy`, `Options.dfy`,
  `Integers.dfy`, `UriPath.dfy`, `Checksum.dfy`, `PublishedExamples.dfy`): printing and parsing as functions, with
  sections 3, 3.1 and 3.2 of RFC 7252 and section 2.2 of RFC 7959 as the background, and exact conditions for the round
  trips and for what the parser accepts. `Messages.dfy` holds the message object, the printer and the parse loop as the
  program runs them. `BlockMessages.dfy` ties the protocol to bytes: the datagrams of a transfer decode to exactly the
  packets and replies the protocol model exchanges.
* **Caching and deduplication.** `ShardedCache.dfy` proves that 64 shards with expiry and cleanup sweeps answer like
  one flat map. `Dispatch.dfy`, `DispatchProofs.dfy` and `DispatchDelivery.dfy` use that map for the dispatcher that runs a
  request handler once, on the whole body.
* **Stream framing and the handoff registry** (`TcpFraming.dfy`, `BackwardStorage.dfy`).

Times are integers of nanoseconds, and clocks never go back. Datagrams, strings and tokens are sequences of bytes.

## What the proofs found

* The Block1 sender crashes exactly on a Continue for the block number just past its last packet
  (`PanicsExactlyOnePastTheEnd`). Against this repository's receiver that reply is never made (`EndToEndSafety`).
* The Block1 sender's retries are bounded only while something is unacknowledged: once Continue has come for every
  packet it waits for ever (`Block1WaitsForeverOnceAllAcked`). It never gets there while one local state serves the
  transfer and no handler answers 2.31 (`JointAgreement`). Both conditions are needed, for every payload. The handler's
  code is sent unchecked, and with 2.31 it acknowledges the last packet (`HandlerContinueStrandsSender`). And the local
  state lives three minutes from its first block, however long the transfer takes: `ExpiryStrandsSender` gives a run
  in which it expires before the last block. There the sender is still waiting because the first wait of a call is as
  long as its message's `Timeout` (connections.go:163-167).
* An option delta or length of 65536 to 65804 is printed but not read back (`FieldRoundTrip`), and a block number of
  2^28 or more is cut off in the option (`NumberSurvives`).
* When an honest message with a checksum carries an elective option its receiver does not know, an integer printed
  longer than needed, or a scheme other than 0 and 1 in a value the receiver normalises, the receiver hashes other bytes
  than the sender; the message is refused unless the two hashes collide (`ChecksumAccepted`, `HonestMessageRefused`).
* While a handler runs on after its local state has expired, the next request with its token starts a second one beside
  it (`OverdueHandlerRunsTwice`). When the first then finishes, it deletes the local state of the second, and ten seconds
  later a third can start beside a second that is still in time (`OverdueCompletionFreesSuccessor`). All this concerns
  that sender and token only: the guarantees of the others do not depend on it.
* An option whose value is cut off by the end of the datagram is accepted without a value, even under an unknown
  critical code, and what there is of the value is read on as options and payload (`CutOffOptionIsKept`).
* Critical options of the standard that the parser has no case for, such as If-None-Match, are refused
  (`AcceptedExactly`, `IntegerCodes`, `StringCodes`).
* A Delete during a Read makes it return no message and no error (`ReadReturnsNothing`).
* Get and LoadOrStore disagree about a cache item at one instant, the one at which it expires (`ExpiryInstant`).
* The high nibble of a TCP length prefix is ignored when read, so only prefixes that leave it zero are canonical
  (`PrefixIsEncoding`).

In the sender model `Succeeded` covers every return without an error; for Block1 that includes the empty
acknowledgement after which the call goes on to receive a Block2 body.

## Model

| member | source | states |
|---|---|---|
| ArqSystem.EndToEndSafety | transport.go:303-609 | in every run of one transfer, under any loss, duplication and reordering, with local states that expire, are deleted and are made anew, any number of them taking datagrams at a time, and handlers that answer any code: every buffer holds under k exactly block k of the payload, its total is -1 or n, a complete buffer assembles to the payload byte for byte, no index panic, success only after the whole payload was handed over, at most 6n writes, in-flight packets at most peak window plus repeated acks |
| ArqSystem.DeliverDataSafe | localstate.go:154-184 | delivering any written block at any time, to the living local state, to a new one or late to an older one, keeps safety |
| ArqSystem.RespondSafe | layerRequest.go:60-88 | so does a handler's reply with any code, its block option cloned from a request |
| ArqSystem.DeliverReplyOk | transport.go:356-413 | delivering any reply ever sent keeps it too |
| ArqSystem.SenderTimeoutOk | transport.go:342-352 | and so does a silent second at the sender |
| ArqSystem.RunOk | transport.go:303-609 | the invariant holds after any sequence of deliveries, timeouts, handler responses and dropped local states |
| ArqSystem.DeliveredExactly | localstate.go:154-184 | one delivery to a receiver that is collecting: the body is handed over exactly when every other block is already in the buffer it goes to, what is answered and with which code, and when a failed acknowledgement makes the client give up |
| ArqSystem.ForgottenStartsAnew | server.go:518-529 | with its local state gone the server starts a buffer of its own for the next datagram, and the older ones stay as they are |
| ArqSystem.LateGoesHome | server.go:518-529 | a datagram that found its local state earlier adds its block to that one's buffer and to no other |
| ArqSystem.ServerNeverStops | localstate.go:112-152 | in no run does the server give a transfer up |
| ArqSystem.SilencesAreCounted | transport.go:526-575 | a client whose acknowledgements go out survives six silent seconds and gives up at the seventh |
| ArqAgreement.JointAgreement | transport.go:371-391 | in every run, as long as one buffer has served the transfer (always, for Block2) and no handler has answered 2.31: each packet marked acked is in that buffer, `shift < n`, and at most 6n silent seconds are survived |
| ArqAgreement.UnansweredRemains | localstate.go:160-180 | the delivery that completes the body is not acknowledged with Continue, so some block never is |
| ArqAgreement.ReceiveJoint | transport.go:576-608 | delivering any block, again or for the first time, with its acknowledgement sent or failing, keeps the agreement between sender, network and receiver |
| ArqAgreement.GivingUpMeansSixWrites | transport.go:225-236 | in every run, a transfer that gives up has a packet that was written six times and never acknowledged |
| ArqAgreement.RunJoint | transport.go:303-609 | the agreement holds in every run that meets its conditions |
| ArqSenderProofs.RunsOk | transport.go:303-524 | the sender's invariant holds after any sequence of replies and timeouts from any peer, with any socket errors |
| ArqSenderProofs.FastCountersAreSlowCounts | transport.go:376-391 | `shift` is the length of the longest acked prefix, `overflowIndicator` the number of unacked packets tried more than three times (so never negative), and `relative_shift >= acked >= shift` |
| ArqSenderProofs.RetriesAreBounded | transport.go:225-251 | no packet is written more than 6 times, its writes are a second apart, 6n writes in all, at most 6n timeouts survived (Block1: while something is unacked) |
| ArqSenderProofs.TimeoutMakesProgress | transport.go:213-225 | while `shift < n` the range of a pass contains the first unacked packet, and a silent second writes it once more or ends the call |
| ArqSenderProofs.Block1WaitsForeverOnceAllAcked | transport.go:342-352 | the Block1 sender with everything acked survives any number of timeouts unchanged |
| ArqSenderProofs.InFlightIsBounded | transport.go:213-225 | when acks are only for packets already sent, packets in flight never exceed the largest window so far plus the repeated acks |
| ArqSenderProofs.WindowIsBounded | transport.go:393-405 | the window is min(n, 300) or within 50..1500, and at most max(initial, 50) + replies/25 |
| ArqSenderProofs.RebalanceKeepsWindow | transport.go:393-405 | one resize raises the bound of the window by at most one, because the retransmit counter never falls |
| ArqSenderProofs.PanicsExactlyOnePastTheEnd | transport.go:371-376 | a reply panics the sender if and only if it is a Block1 Continue for number `len(packets)` |
| ArqSenderProofs.GivesUpExactlyWhenExhausted | transport.go:225-236 | with a working socket a pass returns ErrMaxAttempts if and only if some packet of its range is unacked, due and tried six times |
| ArqSenderProofs.GivingUpHasCause | transport.go:225-236 | against any peer, a call that returned ErrMaxAttempts has an unacked packet that was written six times, or is a Block2 call with every packet acked by Continue |
| ArqSenderProofs.SendFromPackets | transport.go:225-251 | what a pass does to each single packet: unacked, due and in range is tried once more; everything else is untouched |
| ArqSenderProofs.SendFromWire | transport.go:225-251 | a pass writes only packets of its range, in ascending order, each once, all at its clock reading |
| ArqSenderProofs.SendPassEffect | transport.go:213-301 | a whole pass acks nothing, takes no attempt back, and leaves window, shift and balancer alone |
| ArqSenderProofs.MarkAckedKeepsCounters | transport.go:376-391 | marking a packet keeps the fast counters equal to recounts, and the number of acked packets grows by one or not at all |
| ArqSenderProofs.OnReplyEffect | transport.go:356-413 | a Continue for a packet marks exactly that packet; any other reply changes at most the reply counter |
| ArqSenderProofs.TransferConsequences | transport.go:213-524 | the bounds above for one state, from the invariant |
| ArqSenderExact.PassWritesExactly | transport.go:213-254 | a pass with a working socket that goes through writes packet j, once, if and only if it is unacked, not written within the last second, at or above `shift`, and below window + shift when some unacked packet has more than three attempts, else below window + acked packets + repeated acks |
| ArqSenderExact.OutOfOrderAckOpensOne | transport.go:376-391 | with no overdue packet, the first Continue for a packet that is not the first open one gets one more packet written, the one just behind the window, unless the window has just been narrowed |
| ArqSenderExact.SucceedsExactlyOnFinal | transport.go:356-374 | a reply ends the call without an error if and only if it is a Block1 call and the code is 0.00 or a Block2 option is there, or it names a number of the own direction up to n under a code other than 2.31 |
| ArqSenderExact.IgnoredAndCounted | transport.go:356-413 | a reply that names no number of its direction, or one beyond n, leaves a waiting call as it is; any other is counted once by the balancer |
| ArqSenderExact.SocketErrorExactly | transport.go:243-245 | a pass ends with a socket error exactly at its first write that fails |
| ArqSenderExact.RetransmitsCounted | transport.go:228-231 | a pass counts as retransmissions exactly its writes of packets written before, and for Block1 the packet it gives up on, in a window of at least 50 (Block2: more than 50) |
| ArqSenderExact.WindowFollowsLosses | transport.go:393-405 | every 25th counted reply, and no other, resizes the window: by one up without retransmissions since the last time, by nothing with one to three, and by seven tenths of those beyond two down with more, within 50..1500 |
| ArqTransport.BlockSender.constructor | transport.go:303-336 | n unsent packets, all counters zero, window min(n, 300) |
| ArqTransport.BlockSender.StopOfPass | transport.go:214-222 | the end of a pass: window plus shift under overflow, else plus relative_shift, capped |
| ArqTransport.BlockSender.SendPackets | transport.go:213-254 | the Block1 loop computes exactly the send pass of the model: packets, counters, writes and outcome |
| ArqTransport.BlockSender.SendPacketsToAddr | transport.go:256-301 | the Block2 loop likewise, with its guard and its own order of counting |
| ArqTransport.BlockSender.Mark | transport.go:376-391 | marking packet k and moving the prefix over it, in place |
| ArqTransport.BlockSender.Balance | transport.go:393-405 | the window balancer, in place |
| ArqTransport.BlockSender.OnBlock1Reply | transport.go:356-413 | the whole Block1 turn for one ACK |
| ArqTransport.BlockSender.OnBlock2Reply | transport.go:467-517 | the whole Block2 turn for one ACK |
| ArqTransport.SendARQ | transport.go:303-524 | cutting the payload and running the loop of either direction gives the status and the writes of the model's run |
| ArqSender.Advance | transport.go:382-390 | the prefix moves to the first unacked packet and over acked ones only |
| ArqReceiver.BlockBuffer.Take | localstate.go:154-184 | storing one block in place; the body as soon as nothing is missing, otherwise the number to acknowledge |
| ArqReceiver.NumbersSurvive | common.go:225-252 | every block reaches the peer under its own number and flag if and only if there are at most 2^28 |
| ArqReceiver.FullMeansComplete | localstate.go:164-172 | `totalBlocks == len(buf)` if and only if every block is there, and then the body is the payload |
| ArqReceiver.Delivery | transport.go:581-595 | a delivered block is stored under its number, repeated delivery changes nothing, a complete buffer stays complete |
| ArqLossless.LosslessTransferCompletes | transport.go:303-609 | when nothing is lost the sender succeeds, the receiver has the payload, and each of the n packets was written exactly once in order |
| ArqLossless.LaunchWritesFirstWindow | transport.go:303-336 | a call starts by writing the first min(n, 300) packets, in order and once each |
| ArqLossless.RoundsExchange | transport.go:376-413 | after k lossless rounds exactly the first k blocks are acked and stored, and the next one is already written |
| ArqStranding.ExpiryStrandsSender | localstate.go:13 | for every payload of two blocks or more there is a run from the start of a call, with no deleted local state and no handler reply, in which the local state made by block 0 expires after its three minutes and before the last block; both instances together acknowledge everything, neither has the body, and the Block1 sender waits through any timeouts |
| ArqStranding.HandlerContinueStrandsSender | layerRequest.go:60-88 | for every payload, a handler that answers 2.31 after a lossless transfer to one local state has had the whole body and leaves the Block1 sender waiting through any timeouts |
| ArqStranding.LastContinueStrands | transport.go:376-413 | the Continue for the one open packet, whichever it is and however the others came to be acked, leaves the Block1 sender nothing to send and no way out |
| Fragmentation.FragmentsShape | common.go:225-252 | ceil(len/size) blocks, numbered consecutively, all but the last full and flagged, the last alone final and not empty |
| Fragmentation.FragmentsConcatenate | common.go:225-252 | the bodies of the blocks concatenate to the payload |
| Fragmentation.StateSend.ConstructNextBlock | common.go:225-252 | one step of the cutter: the next block, the end flag, and the remaining blocks unchanged |
| Fragmentation.Fragment | transport.go:319-329 | the cutting loop ends and yields the blocks of the payload |
| Fragmentation.AssembleBlocks | storage.go:112-122 | the assembly loop, missing numbers counting as empty |
| Fragmentation.AssembleRestores | storage.go:112-122 | a buffer with every block under its number assembles to the payload, in whatever order it was filled |
| CodecProofs.RoundTrip | message.go:86-286 | a message comes back with nothing changed but its options stably sorted if and only if its token has at most 8 bytes, its options are recognised and of their kind, no critical one repeats and its scheme is 0 or 1 |
| CodecProofs.DecodeOfEncode | message.go:86-286 | decoding an encoding gives exactly what the peer makes of each option, errors included |
| CodecAcceptance.AcceptedExactly | message.go:86-219 | an encoding is accepted if and only if its token has at most 8 bytes, no option has a critical code outside the recognised lists, no integer option that is printed has more than four bytes, and no critical code that may not repeat is printed twice |
| CodecAcceptance.RefusedForOption | message.go:196-204 | the refusable option with the least code decides the error: too long an integer, or an unknown critical option |
| CodecAcceptance.RefusedForMessage | common.go:66-89 | with no option refused, a token of more than 8 bytes is refused first and a repeated critical option after it |
| CodecAcceptance.AcceptedReads | message.go:187-208 | what the peer reads: every recognised option in its order, as the big-endian integer or the string of its bytes, no other option, and the rest of the message unchanged |
| CodecAcceptance.PrintedByCode | message.go:221-240 | what is printed under each code: a scheme that is not coaps as a single coap, everything else as given |
| CodecAcceptance.IntegerCodes | message.go:187-196 | the codes under which an integer comes back, by their numbers |
| CodecAcceptance.StringCodes | message.go:198-200 | the codes under which a string comes back, by their numbers |
| CodecAcceptance.BytesArriveByKind | common.go:91-116 | an option sent as bytes or without a value arrives as the integer or string of its bytes, by its code |
| CodecAcceptance.HeaderErrors | message.go:86-130 | for any bytes: too few if and only if there are less than four, a wrong version if and only if the top two bits are not 01, and no message when the token is cut off |
| CodecAcceptance.HeaderFields | message.go:86-136 | type, code, id and token of an accepted datagram are those of its bytes |
| CodecAcceptance.BehindTheToken | message.go:138-185 | a reserved nibble in the first option byte is refused; no byte, or the payload marker, ends the options |
| CodecAcceptance.CutOffOptionIsKept | message.go:209-211 | an option cut off by the end of the datagram is kept without a value whatever its code, and what follows is read on |
| PublishedExamples.GetRequest | message.go:221-286 | a GET with a path segment of at most 12 bytes is printed as in Figures 16 and 17 of RFC 7252 |
| PublishedExamples.TemperatureResponse | message.go:221-286 | the response of Figure 16 is printed byte for byte |
| PublishedExamples.BlockValues | block.go:30-47 | block option values in examples of section 3 of RFC 7959 |
| PublishedExamples.LengthForms | connections_tcp.go:59-76 | the first and last length of every form of a prefix |
| CodecProofs.ReencodingIsStable | message.go:86-286 | re-encoding a decoded message and decoding again gives the same message if and only if its codes came in order, none was cut off and its scheme is 0 or 1 |
| CodecProofs.FirstByteBits | message.go:230 | the first byte: the low four bits of the type with the version's bit over them, and the low four of the token length |
| CodecProofs.FieldRoundTrip | message.go:140-195 | an extended delta or length is read back if and only if it is below 65536, although larger ones are printed |
| CodecProofs.HeaderRoundTrip | message.go:140-195 | an option header is read back, and never mistaken for the payload marker |
| CodecProofs.ParsePrinted | message.go:140-217 | the parse loop reads printed options one by one and stops at the payload |
| CodecProofs.ReadBack | message.go:196-217 | one option value is read back as itself if and only if it is of the kind of its code |
| CodecProofs.InterpretBack | message.go:196-217 | and a list if and only if all of its options are |
| CodecProofs.PrintedIsSorted | message.go:221-240 | printing only sorts the options if and only if the scheme is absent, coaps or a single coap |
| CodecProofs.DecodedShape | message.go:86-219 | what any accepted datagram can decode to |
| Checksum.ChecksumSurvives | message.go:288-356 | for any hash function, a plain message passed through applyChecksum and Serialize is accepted by Deserialize |
| Checksum.ChecksumAccepted | message.go:70-84 | a decodable checksummed message is accepted when every hashed option is stable; when one is not, the receiver's reprint differs and the message is refused if and only if the hash tells the two byte strings apart |
| Checksum.HonestMessageRefused | message.go:339-356 | a message with one unknown elective option is refused under every hash that tells two given datagrams apart |
| Checksum.ReprintExact | message.go:300-337 | the receiver's re-encoding without the checksum equals what was hashed if and only if every hashed option is stable |
| Checksum.SentWithoutChecksum | message.go:311-337 | removing the checksum and sorting commute |
| Checksum.PrintingDetermines | message.go:221-286 | two sorted lists and payloads that print the same agree in codes, value bytes and payload |
| Checksum.AcceptedIsWhatWasSent | message.go:339-356 | whatever datagram arrives, a message accepted under the checksum of m is m in type, code, id, token, payload and the codes and bytes of its other options, unless the hash collides on the two |
| Checksum.EncodingDetermines | message.go:221-286 | two messages with the same datagram are the same but for how their options were given |
| Checksum.CheckedExactly | message.go:70-84 | for any bytes: what cannot be decoded keeps its error, a message without a checksum is taken, one with a checksum exactly when it is the hash of the message without it |
| Checksum.Verdict | message.go:339-356 | the receiver compares the hash of what was hashed with the hash of its own reprint, and nothing else |
| Options.SortIsStable | common.go:26-49 | sorting orders by code and keeps the options of each code in order |
| Options.SortedIsUnique | common.go:26-49 | that determines the sorted list |
| Options.SortDetermined | common.go:26-49 | lists with the same options per code sort to the same list |
| Options.SortInPlace | common.go:33-49 | sorting an array by swaps of neighbours gives the stable sort |
| Options.GetAdd | options.go:236-244 | adding touches only its own code: it joins repeatable options and replaces others |
| Options.CodesThatRepeat | options.go:149-157 | adding an option leaves one of its code, except for six codes by their numbers, of which it leaves one more |
| Options.ForeignIsZero | options.go:54-61 | a string with any other byte is read as 0 |
| Options.AtoiReadsDecimals | options.go:31-64 | a decimal string, with or without a sign, is read as its number when 64 bits hold it and otherwise as 0 |
| Options.GetRemove | options.go:262-270 | removing takes out all options of one code and no other |
| Integers.IntRoundTrip | common.go:118-146 | every 32-bit integer survives printing and parsing |
| Integers.ShortestForm | common.go:128-146 | no other form of 0, 1, 2 or 4 bytes that is read as the same integer is shorter than the printed one |
| Integers.DecodeIntPadded | common.go:118-126 | reading through a zeroed buffer of four bytes is big-endian reading, and an error beyond four bytes |
| Integers.BlockRoundTrip | block.go:30-59 | a block option survives packing if and only if its size is a power of two in 16..1024, for every number |
| Integers.SzxIsTruncatedLog | block.go:69-71 | the size exponent is the truncated binary logarithm |
| Integers.NumberSurvives | block.go:30-59 | a block number survives the 32-bit option value if and only if it is below 2^28 |
| UriPath.RebuildKeeps | message.go:431-435 | a path survives joining and re-splitting if and only if no segment is empty or contains a slash |
| UriPath.RebuildIdempotent | message.go:518-526 | rebuilding twice is rebuilding once, for any options |
| UriPath.PathIsPieces | message.go:431-435 | the path starts with a slash, and rebuilding gives the segments one after the other, each cut at its slashes, without the empty pieces |
| UriPath.OnlyStringsArePath | options.go:24-29 | a path option that is not a string adds nothing to the path |
| UriPath.SplitJoin | message.go:518-526 | splitting a joined path gives its segments |
| Messages.CoapMessage.RemoveOptions | options.go:262-270 | the removal loop, in place |
| Messages.CoapMessage.GetOptions | options.go:175-183 | the lookup loop |
| Messages.CoapMessage.AddOption | options.go:236-244 | adding or replacing, in place |
| Messages.CoapMessage.AddOptions | options.go:248-252 | adding several, in place |
| Messages.CoapMessage.SetUriPath | message.go:518-526 | the path loop appends one option per non-empty segment |
| Messages.CoapMessage.PrepareOptions | message.go:221-240 | scheme normalisation and sorting, in place |
| Messages.CoapMessage.Serialize | message.go:221-286 | the printer's bytes are the encoding, and its only effect is on the order and scheme of the options |
| Messages.CoapMessage.ApplyChecksum | message.go:288-309 | the message with one fresh checksum, the copy that is hashed leaving the message alone |
| Messages.PrintAll | message.go:242-280 | the option loop prints the delta-coded options |
| Messages.TakeOptions | message.go:140-217 | the parse loop ends on every input and computes the parse |
| Messages.Deserialize | message.go:70-219 | all checks in order: length, version, token, options, validation, checksum |
| BlockMessages.BlockArrives | common.go:282-313 | the datagram of a block decodes to a CON with the id given and the request's code and token, its path rebuilt, all its queries, coaps exactly when it is coaps, the window, its last proxy address and proxy id, the block option and body of the protocol model, and no other option |
| BlockMessages.AckArrives | common.go:254-280 | the acknowledgement of a received block decodes to exactly the reply of the protocol model, with the id and token of the block message, no payload, its scheme, window, block option and proxy id, the proxy address of the receiver's own request, and no other option |
| BlockMessages.ChecksummedBlockArrives | common.go:303 | with a checksum, under any hash, the datagram of a block is accepted and decodes to the same and the one checksum |
| BlockMessages.PreambleByCode | common.go:292-304 | every option of the preamble, code by code: coaps scheme, window, rebuilt path, all queries, and nothing else |
| BlockMessages.PreambleOk | common.go:292-304 | all of them can be sent, none that must not repeat twice |
| BlockMessages.CloneByCode | options.go:255-259 | cloning one code takes over all options that may repeat and the last of those that must not, and touches no other code |
| ShardedCache.CacheIsFlatMap | storage.go:32-107 | any run of Set, Get, Delete, LoadOrStore and ItemCount with sweeps anywhere, under a clock that never goes back, answers like one flat map without sweeps |
| ShardedCache.StepAgrees | storage.go:37-107 | one operation keeps the refinement and gives the same answer |
| ShardedCache.CountsAgree | storage.go:60-72 | the sum of live items over the shards is the count over the flat map |
| ShardedCache.SweepAgrees | storage.go:93-107 | a sweep of one shard is invisible |
| ShardedCache.DropAgrees | storage.go:49-58 | a key may leave its shard when it leaves the map or its item has expired |
| ShardedCache.FindsTheLastSet | storage.go:37-91 | in any run with sweeps, a key that was set and not stored or deleted since is found by Get up to the instant of its expiry, by LoadOrStore before it, and by neither after it |
| ShardedCache.CountedAreLoadable | storage.go:60-72 | ItemCount is the number of items that LoadOrStore would load at the same instant |
| ShardedCache.LastByteGoesInLast | storage.go:124-131 | the hash starts from the FNV offset, and each byte goes in after the multiplication with the FNV prime |
| ShardedCache.HashFits | storage.go:124-131 | the hash is a word of 32 bits |
| ShardedCache.ExpiryInstant | storage.go:42-91 | Get and LoadOrStore disagree about an item if and only if the clock is exactly at its expiry |
| ShardedCache.Hash | storage.go:124-131 | the hash loop with 32-bit wrap-around |
| ShardedCache.CountLive | storage.go:63-69 | the counting pass over one shard |
| ShardedCache.Cache.constructor | storage.go:23-30 | 64 empty shards and the ttl |
| ShardedCache.Cache.Set | storage.go:37-40 | the new shards, as the model's step |
| ShardedCache.Cache.Get | storage.go:42-54 | the answer and the new shards; an expired item is deleted |
| ShardedCache.Cache.Delete | storage.go:56-58 | the new shards |
| ShardedCache.Cache.LoadOrStore | storage.go:74-91 | the kept value, whether it was loaded, and the new shards, with the two clock readings of the code |
| ShardedCache.Cache.ItemCount | storage.go:60-72 | the total over all shards |
| ShardedCache.Cache.Sweep | storage.go:97-105 | the expired items of one shard go, the others and the other shards stay |
| ShardedCache.PlayAll | storage.go:23-107 | a new cache put through any run gives the answers of the flat map |
| Dispatch.LocalState.ProcessMessage | localstate.go:112-152 | one message under the lock: the object goes on standing for the local state of the model, and the handler call asked for is the model's |
| Dispatch.LocalState.Enter | localstate.go:63-66 | the compare-and-swap lets a handler through exactly when the local state of the model is idle, and goes on standing for it |
| Dispatch.ProcessLocalState | server.go:518-523 | the duplicate check and the load-or-store on the sharded caches give the handle the flat maps give |
| DispatchProofs.HandlerRunsAtMostOnce | localstate.go:63-85 | in every interleaving one local state lets one handler through |
| DispatchProofs.LastBlockCallsHandler | localstate.go:154-184 | a confirmable block asks for the handler, on the whole payload, if and only if every other block is already in the buffer |
| DispatchProofs.OtherMessagesCall | localstate.go:112-152 | a Block2 message or an unconfirmed block leaves the buffer alone and asks for nothing; a plain message asks for the handler on its own body |
| DispatchProofs.HandlerGetsTheWholeBody | localstate.go:154-184 | in every run in which the blocks delivered under an id are those of one payload, every handler started for that id gets that payload |
| DispatchProofs.HandlerGetsWhatWasSent | localstate.go:112-152 | and with plain messages under the same id, that payload or the body of one of them |
| DispatchDelivery.LastMissingBlockStarts | localstate.go:154-184 | the blocks of a request delivered in any order and with any repeats start its handler, once and on the whole payload, with the last missing one |
| DispatchDelivery.NothingStartsBefore | localstate.go:154-184 | and while one is missing no handler is started or about to be |
| DispatchProofs.NoSecondRunInTime | server.go:518-523 | while no handler of one sender and token outlives its local state, whatever the handlers of others do, a second run for them starts only more than processedTTL after the first has finished |
| DispatchProofs.FreshStateExactlyWhenClear | server.go:518-523 | while no handler of its sender and token outlives its local state, a request gets a new local state if and only if every completed run of its id ended more than processedTTL ago and every other local state of its id has expired |
| DispatchProofs.OverdueHandlerRunsTwice | server.go:518-523 | whenever a handler runs on after its local state has expired, with nothing else under way, the next plain request of its id starts a second one beside it |
| DispatchProofs.OverdueCompletionFreesSuccessor | localstate.go:67-71 | the completion of that overdue handler deletes the second one's local state, and once it is forgotten the next request starts a third handler beside the second, which is still in time |
| DispatchProofs.SlowHandlerRunsTwice | localstate.go:13-20 | and such a run exists |
| DispatchProofs.FinishIsOk | localstate.go:68-71 | a handler that finishes in time deletes its own local state and leaves its completion remembered |
| BackwardStorage.RegistrySafety | backward_storage.go:25-86 | over all interleavings of lock sections every registered channel is open, none has two ids, none is closed twice or sent to after closing |
| BackwardStorage.ReadReturnsAsTold | backward_storage.go:25-64 | in every interleaving a Read returns the message written under its own id and handed to it while no second Read or Delete of that id came between, or nothing, or its time is over, whichever comes first |
| BackwardStorage.ReadReturnsNothing | backward_storage.go:58-63 | a Read returns no message and no error only if a Delete of its id came before any second Read, and while it waits its channel wakes it so exactly then |
| BackwardStorage.ClosedExactlyByDelete | backward_storage.go:78-86 | the channel of a pending Read is closed if and only if a Delete of its id came before any second Read |
| BackwardStorage.ReadClosesItsOwnOnly | backward_storage.go:42-56 | the end of a Read, after its select, removes and closes its own channel if no second Read or Delete of its id came between, and otherwise changes nothing |
| BackwardStorage.ReadOwnsItsEntry | backward_storage.go:42-46 | a pending Read still owns its entry if and only if no second Read and no Delete of its id came between |
| BackwardStorage.GoneForGood | backward_storage.go:42-86 | a channel that left the registry never comes back, is not closed any more and gets no message |
| BackwardStorage.Storage.Get | backward_storage.go:66-76 | the registered channel, made if missing |
| BackwardStorage.Storage.ReadBegin | backward_storage.go:42-46 | a new channel replaces what is registered |
| BackwardStorage.Storage.ReadEnd | backward_storage.go:49-56 | the closing section, which never closes a closed channel |
| BackwardStorage.Storage.Write | backward_storage.go:25-40 | the send under the read lock, never to a closed channel, and the Read that takes the message |
| BackwardStorage.Storage.Wake | backward_storage.go:58-63 | a select that ends by its timer or by a closed channel |
| BackwardStorage.Storage.Delete | backward_storage.go:78-86 | removal and closing, never of a closed channel |
| TcpFraming.StreamRoundTrip | connections_tcp.go:114-138 | any frames that fit the buffer and are shorter than 2^32 + 65805 are read back in order, and trailing bytes are left alone |
| TcpFraming.FrameRoundTrip | connections_tcp.go:114-138 | one frame is read back, or refused when it does not fit |
| TcpFraming.LengthRoundTrip | connections_tcp.go:59-112 | a length is read back if and only if it is below 2^32 + 65805 |
| TcpFraming.PrefixIsEncoding | connections_tcp.go:59-112 | a prefix is the encoding of the length it decodes to if and only if its high nibble is zero |
| TcpFraming.CutFrameFails | connections_tcp.go:78-128 | a stream that ends inside a frame yields no frame, and which error: that of an ended stream exactly when it ends between two reads, and the short buffer as soon as the prefix is there |
| TcpFraming.Stream.ReadLength | connections_tcp.go:78-112 | the length read from the stream and the bytes it uses |
| TcpFraming.Stream.ReadTcpFrame | connections_tcp.go:114-128 | the frame in front of the buffer, the rest of the buffer unchanged, the stream moved past it; a frame that does not fit costs its prefix, a cut-off prefix leaves the buffer alone, and a cut-off body leaves in it what arrived |
| TcpFraming.Stream.ReadInto | connections_tcp.go:123 | reading into the front of a buffer, whole or as far as the stream goes |
| TcpFraming.Stream.WriteTcpFrame | connections_tcp.go:130-138 | prefix and data appended |

## Left out

- Sockets, dialers, listeners, deadlines, the command line and the examples; a failing write is an input of the model (`down`, `ackFails`) and counts as written.
- Encryption, key exchange, handshakes and sessions: transfers are plaintext, CRC32 is an arbitrary function.
- Proxy routing, metrics, readable strings, JSON payloads, resource lookup, and the random choice of ids and tokens.
- The handover of Block2 acknowledgements to their sender through `block2channels`; in the model a reply reaches the sender or is lost.
- One clock reading stands for all readings of one send pass or one cache operation (LoadOrStore keeps its two), and `receiveMessage` is a wait of at least one second that ends with a matching reply or without.
- The product with 0.7 and the logarithm and power of the block size are computed exactly; Go's floating-point product can differ in the last place, and then the truncated step by one (90 retransmissions beyond two: 62 instead of 63); of what is proved here only the size of the step in `WindowFollowsLosses` depends on it.
- ArqSystem.EndToEndSafety: a payload that is not empty (the library only takes this path above 1024 bytes) and has at most 2^28 blocks, beyond which `NumbersSurvive` shows that numbers are cut off.
- ArqAgreement.JointAgreement: one local state, and no handler that answers 2.31; `ExpiryStrandsSender` and `HandlerContinueStrandsSender` show that it fails without either: for a handler that answers 2.31 with every payload, and for a second local state with every payload of two blocks or more.
- ArqSenderProofs.RetriesAreBounded: the bound on timeouts of the Block1 sender needs an unacknowledged packet; `Block1WaitsForeverOnceAllAcked` shows why, and `JointAgreement` that one receiver always leaves one.
- CodecProofs.RoundTrip: for the four message types, tokens of at most 15 bytes (the field has four bits), codes and values below 2^16; the type check of validation can then not fail and is not modelled. Option codes are natural numbers, and integers of all of Go's types are one.
- Checksum.ChecksumSurvives: needs the conditions under which the receiver can decode at all; `Plain` is every option the library itself sends.
- Options.SortInPlace: an insertion sort by neighbours, which is what `sort.Sort` does up to twelve options; its other strategies for longer unsorted lists, and the fix-up in `Swap` they could reach, are not modelled.
- Integers.BlockRoundTrip: the shift of the block number is not cut off at 64 bits.
- Option lists are values: a clone that shares option objects with its original is not told apart from a copy.
- The checks of `processMessage` before the selector (handshake and decryption) and the branch that hands a message to the registry instead of the handler.
- DispatchProofs.NoSecondRunInTime: the duplicate check with the load-or-store is one step, and so is the deletion of the local state with the remembering of its completion; within LoadOrStore, load and store are one step.
- ShardedCache.Cache.Sweep: one shard at one clock reading, with no operation on the same shard in the middle.
- BackwardStorage.RegistrySafety: which Read is at its select when a Write comes is an input; receivers on channels handed out by Get are not modelled. `sent` lists the attempts.
- Session, proxy and connection tables: thin users of the cache; likewise the lookup that tells whether a channel is registered.
