# gbnet

A Dafny model of the transport state of gbnet, a game-networking library: how
16-bit wrapping sequence numbers, fixed-size windows and lossy delivery still give
exact guarantees, with the bit-level codecs and the schedulers beneath. Verify with
`dafny verify dfyconfig.toml`.

Objects whose methods update their fields are classes here, and each method is
proved against a specification on values: a function of the old state, or a
relation where the original leaves a choice open (the order of a hash map, ties
between time stamps, the order a sort gives equal keys). What the library promises
is then proved of those specifications, over every input and every run, with the
unbounded numbers carried beside the 16-bit ones they stand for.

| files | what they model |
|---|---|
| SequenceNumbers, Bits, Wrappers | circular comparison, words as numbers, shared types |
| Channels, OrderedDelivery, OrderedTimeouts, SequencedDelivery, UnorderedDelivery, SendQueue, Retransmission, Resending | the five delivery modes, two ends joined by a network, the queue and the retries |
| SequenceBuffers, AckWindow, InFlight, FlightRecords, RttEstimator, LossRing, Reliability, Acknowledgement | the reliability endpoint and its parts, and two of them joined by a network |
| BitIo, Codec, Packets, WireFormats | the bit buffer, the structured codec, whole packets, and the layouts of all formats |
| Crc32c, Batching, RateLimit | checksummed frames, packing, the connection limiter |
| Fragments, Reassembly, ReassemblyRuns, FragmentExpiry, Starvation, MtuSearch | fragmentation and path MTU discovery |
| DeltaCodec, DeltaBaselines, DeltaProtocol, BaselineLife, Confirmation, StaleBaselines | delta compression and its two-party protocol |
| Priority | the priority accumulator |

Time is an integer argument wherever the original reads the clock; all packets that
one acknowledgement names are taken to be sampled at one moment. Floating point is
modelled with reals. Counters that the original keeps in 64 bits are unbounded.

## Where the code and its promises part

Each of these is proved, with the input that shows it or the exact condition:

- A forward jump of exactly 64 packets shifts a 64-bit word by 64, which does not
  clear it (`AckWindow.ReceivedIsExactIff`), and the sender then takes a lost packet
  for delivered (`Acknowledgement.LosesPacket64`). A build with overflow checks stops
  instead; the model follows the release build.
- A peer that has got nothing acknowledges number 0
  (`Acknowledgement.FirstIsTakenUnseen`); no other packet counts as arrived without
  having come (`Acknowledgement.ArrivedIs`).
- The record of a lost packet stays in flight until it is evicted, and a whole cycle of
  numbers on, the acknowledgement of another packet is taken for its own
  (`Acknowledgement.LosesStalePacket`). Which packets that can befall is said by
  `Acknowledgement.ReportIsRightIff` and `Acknowledgement.AcknowledgedHaveArrivedIff`;
  a number used again in flight also overwrites the record there
  (`InFlight.ConservedIff`).
- A message sent as reliable on a channel of an unreliable mode is kept until it is
  acknowledged but never sent again (`Resending.NotResentOnUnreliable`).
- A message marked for a fast retransmit waits all the same once its doubled timeout is
  over a minute (`Resending.MarkedIsDueIff`).
- The distance check on arriving packets never refuses one
  (`AckWindow.DistanceNeverRefused`).
- The loss reported to congestion control is always zero
  (`InFlight.ReportedLossIsZero`).
- A late insert into the sequence buffer evicts a newer entry, exactly when one is
  held in its slot (`SequenceBuffers.InsertRefinesIff`,
  `SequenceBuffers.LateInsertIsHarmlessIff`, `SequenceBuffers.LateInsertEvicts`).
- A buffer size that does not divide 65536 loses an entry at the wrap
  (`SequenceBuffers.LookupIsRightIffDivides`), and every size but the divisors of 65536
  up to 32768 makes the duplicate filter refuse a new packet and leaves the window wrong
  (`AckWindow.TrustyIffGoodSize`, `AckWindow.ExactIffGoodSize`).
- Messages over 65535 bytes do not survive batching (`Batching.BatchRoundTrip`).
- The reassembly size counter drifts up with every duplicate fragment, against its
  own debug assertion (`ReassemblyRuns.AssertionHoldsIffNoWaste`). Once ahead by the
  limit, which four fragments can bring about (`Starvation.WasteIsReached`), every
  fragment evicts a buffer, and a message of two or more sent alone comes out exactly
  when there are as many older buffers as it has fragments
  (`Starvation.CompletesIffOthersSuffice`).
- In the connection's tick the timeout check follows the next probe, so a lost probe
  lowers the upper end only if a tick straddles the deadline
  (`MtuSearch.StaysIffOnTime`). Until one does, over 576..1200, the range of a default
  connection, a path that takes 800 bytes stays at 576
  (`MtuSearch.MissesBelowTheMiddle`, `MtuSearch.StraddlingDiscovers`); which limits are
  found is said by `MtuSearch.PromptIsExactIff`.
- A changed field that does not fit its width is cut without an error in a delta,
  where the whole state would be refused (`DeltaCodec.DeltaRoundTripIff`).
- 65535 is both a snapshot number and the sentinel: against that baseline a payload
  decodes exactly when its difference begins with the whole state
  (`DeltaProtocol.SentinelDecodesIff`, `DeltaProtocol.SentinelRun`).
- A difference that comes after its baseline's number has come round is applied to
  whatever is stored under it (`StaleBaselines.DecodesIff`, `StaleBaselines.StaleRun`).

## Model

| member | source | states |
|---|---|---|
| SequenceNumbers.AgreesWithinHalfRange | gbnet/src/util.rs:8-26 | Both circular operations agree with the unbounded integers whenever the numbers are less than half the space apart. |
| SequenceNumbers.GreaterThanByDistance | gbnet/src/util.rs:8-11 | Exactly when `sequence_greater_than` holds, for any two unbounded numbers at any distance: by their distance round the circle, with the tie at exactly half of it decided by the larger residue. |
| SequenceNumbers.ComparesRightlyIff | gbnet/src/util.rs:8-11 | Of two numbers less than the whole space apart exactly those are compared rightly that are less than half of it apart, or exactly half with their residues the right way round. |
| SequenceNumbers.GreaterThanIsTotal | gbnet/src/util.rs:8-11 | Two different numbers are ordered one way and only one way, the tie at half the space included. |
| SequenceNumbers.GreaterThanIsCyclic | gbnet/src/util.rs:8-11 | It is no order: three numbers each greater than the next. |
| Channels.Channel.constructor | gbnet/src/channel.rs:71-89 | A new channel is empty on both sides, numbers at 0. |
| Channels.Channel.Send | gbnet/src/channel.rs:95-124 | Too large and buffer-full errors, dropping the oldest queued message instead of blocking, and the numbering of what is accepted. |
| Channels.Channel.GetOutgoingMessage | gbnet/src/channel.rs:129-147 | The front message goes out behind its big-endian number; a reliable one is held until acknowledged, stamped with the time. |
| Channels.Channel.GetRetransmitMessages | gbnet/src/channel.rs:150-184 | In any map order: each pending message past its backed-off timeout goes out once, with its retry count and time updated, or, with its retries used up, is dropped; all others are untouched. |
| Channels.Channel.AcknowledgeMessage | gbnet/src/channel.rs:282-284 | Exactly that number stops being pending. |
| Channels.Channel.MarkForFastRetransmit | gbnet/src/channel.rs:395-399 | The message counts as last sent sixty seconds ago. |
| Channels.Channel.OnPacketReceived | gbnet/src/channel.rs:188-250 | All five delivery modes, the short-message case, the reorder buffer with its eviction, and the drain, as one relation between the receiver before and after. |
| Channels.Channel.EvictOldestBuffered | gbnet/src/channel.rs:254-279 | Any buffered message that none is older than goes, counted as skipped and dropped. |
| Channels.Channel.DrainBuffered | gbnet/src/channel.rs:221-227 | Delivers what is buffered from the awaited number on, up to the first gap. |
| Channels.Channel.Receive | gbnet/src/channel.rs:287-289 | Takes the front of the delivery queue. |
| Channels.Channel.FindEarliestBuffered | gbnet/src/channel.rs:309-317 | The pairwise reduction, over any order of the buffer's keys. |
| Channels.Channel.FlushOrderedBuffer | gbnet/src/channel.rs:320-339 | Counts the gap, moves to the number found, and drains from there; both loops end. |
| Channels.Channel.Update | gbnet/src/channel.rs:292-306 | Flushes exactly when the channel is ordered and something buffered has waited longer than the timeout. |
| UnorderedDelivery.DeliversEverything | gbnet/src/channel.rs:188-217 | Over every run of arrivals in the two modes without an order, the delivery queue is what follows the two bytes of the number, or the whole of a shorter message, of all that came, in order, repeats and late ones included; as many are counted and nothing is held. |
| UnorderedDelivery.ShortIsDelivered | gbnet/src/channel.rs:188-193 | A message too short for a number is delivered whole in every mode and changes nothing else. |
| UnorderedDelivery.CountsAllBytes | gbnet/src/channel.rs:198-200 | In every mode the bytes counted are those after the numbers of all that came, delivered or not. |
| SendQueue.RefusedIffNotTaken | gbnet/src/channel.rs:95-105 | A message is taken exactly when it is not too large and, on a channel that blocks, fewer than the limit wait; a refused one, for its size first, leaves all as it was. |
| SendQueue.QueueHoldsWhatIsTaken | gbnet/src/channel.rs:95-147 | Over every run the queue keeps its limit and the size limit, the counters are the number and bytes of the messages taken, and on a channel that blocks none of these is lost before it goes out. |
| SendQueue.FullQueueLosesOldest | gbnet/src/channel.rs:100-124 | Where nothing blocks a message taken stands last, after all that waited, or all but the oldest if the queue was full. |
| Retransmission.RetriesAreBounded | gbnet/src/channel.rs:150-184 | Over any run, fast retransmits and any timeouts included, a message is resent at most as often as configured. |
| Retransmission.GivenUpWithRetriesUsed | gbnet/src/channel.rs:162-180 | Over any such run a message stops being pending only by its acknowledgement or by a retransmission pass that finds every retry used. |
| Retransmission.GivenUpOnlyInTheEnd | gbnet/src/channel.rs:162-180 | From any moment on at which no fast retransmit follows, it is moreover not given up before all the backed-off waits that remain, at the least timeout of the stretch, are over. |
| Retransmission.BackoffSumIs | gbnet/src/channel.rs:164-164 | The waits add up to 63 timeouts after six tries and 32 more for each further one. |
| Resending.ResentIffDue | gbnet/src/channel.rs:129-184 | Over every run of a reliable channel: a reliable message sent out and since neither acknowledged nor replaced, with retries left, stays pending, and is in the result of a pass, under its own number and with its own data, if and only if the timeout doubled once for each resending, up to five times, has passed since it was last sent, or since a minute before its last mark. |
| Resending.GivenUpIffDue | gbnet/src/channel.rs:162-180 | With none left it is not resent, and is given up by a pass if and only if it is due. |
| Resending.AcknowledgedIsLeftAlone | gbnet/src/channel.rs:282-284 | Once acknowledged a message is neither pending nor resent until another goes out under its number. |
| Resending.NotResentOnUnreliable | gbnet/src/channel.rs:91-157 | On a channel of an unreliable mode a message sent as reliable stays pending until acknowledged and is never resent. |
| Resending.MarkedIsDueIff | gbnet/src/channel.rs:393-399 | A marked message is due at the next pass if and only if its wait is within a minute of the mark: with timeouts up to 1875 ms always, with longer ones not after five resendings. |
| OrderedDelivery.DeliveredInOrder | gbnet/src/channel.rs:95-145 | In every reachable state of every run of a reliable-ordered sender, a network that loses, repeats and reorders, and a receiver: the delivered log is a strictly increasing choice of what was sent; a prefix of it while no gap has been flushed; and exactly the gap-free prefix of what has arrived while nothing has been evicted either. |
| OrderedDelivery.ReceiverAccounting | gbnet/src/channel.rs:188-279 | In every reachable state the unbounded position is received + skipped - dropped, the awaited number is not buffered, everything buffered is ahead of it, and the buffer keeps its positive limit. |
| OrderedDelivery.StepKeeps | gbnet/src/channel.rs:188-339 | Every step of sender, network, receiver, clock and application keeps the whole invariant. |
| OrderedDelivery.ReduceIsLeast | gbnet/src/channel.rs:309-317 | Whatever the iteration order, the reduction gives the key of least forward distance from the position. |
| OrderedDelivery.AwaitedArrives | gbnet/src/channel.rs:215-228 | The awaited message is delivered along with everything contiguous behind it, and the invariant is kept. |
| OrderedDelivery.TickKeeps | gbnet/src/channel.rs:292-339 | A timeout flush skips to the earliest buffered message and keeps the invariant. |
| OrderedTimeouts.TickFlushesIffOverdue | gbnet/src/channel.rs:292-339 | Over every run a tick changes the receiver if and only if something buffered last came more than the timeout before it; then the next message delivered is the buffered one of least forward distance. |
| OrderedTimeouts.DropsIffFull | gbnet/src/channel.rs:229-279 | A message is dropped if and only if one ahead of the position comes while the buffer is full. |
| OrderedTimeouts.EarliestMakesRoom | gbnet/src/channel.rs:229-279 | What comes from ahead is held, with its own data and the moment it came; of what was held only one that came earliest goes, and only if the buffer was full. |
| OrderedDelivery.HeldIffAhead | gbnet/src/channel.rs:215-250 | In any state, eviction and drain included, a message not held yet is held after it comes exactly when its number compares as ahead of the awaited one. |
| OrderedDelivery.WindowIsTight | gbnet/src/channel.rs:215-250 | Of the messages less than 65536 from the position, those rightly held or rightly not are exactly those less than 32768 away, and at 32768 one of the two sides. |
| SequencedDelivery.DeliversRecords | gbnet/src/channel.rs:205-213 | The sequenced modes deliver exactly the first arrival and each later one newer than all before it, through any number of wraps. |
| SequencedDelivery.RangeIsTight | gbnet/src/channel.rs:239-247 | Of the messages less than 65536 from the last delivered, those rightly delivered or rightly dropped are exactly those less than 32768 away, and at 32768 one of the two sides. |
| SequenceBuffers.SequenceBuffer.constructor | gbnet/src/reliability.rs:329-339 | All slots empty, newest number 0. |
| SequenceBuffers.SequenceBuffer.Insert | gbnet/src/reliability.rs:341-360 | Clearing slot by slot or all at once as the newest number moves up, then the insert, on the array. |
| SequenceBuffers.SequenceBuffer.Exists | gbnet/src/reliability.rs:362-365 | Whether the slot holds that very number. |
| SequenceBuffers.SequenceBuffer.Get | gbnet/src/reliability.rs:367-373 | The data held under that very number, or nothing. |
| SequenceBuffers.LookupIsLatestInsert | gbnet/src/reliability.rs:341-373 | For any run of inserts within reach and a size that divides 65536, a lookup among the last `size` numbers gives the latest insert of that unbounded number or nothing, through wraps and clear-all jumps. |
| SequenceBuffers.RunRefines | gbnet/src/reliability.rs:341-360 | The buffer refines a map from unbounded numbers throughout. |
| SequenceBuffers.LookupIsRightIffDivides | gbnet/src/reliability.rs:341-373 | The sizes up to 32768 for which every lookup of every run in reach is right are exactly those that divide 65536. |
| SequenceBuffers.InsertRefinesIff | gbnet/src/reliability.rs:341-360 | An insert less than half the space from the newest number keeps the refinement if and only if it is not `size` or more behind it. |
| SequenceBuffers.LateInsertIsHarmlessIff | gbnet/src/reliability.rs:341-373 | A later insert than that leaves every lookup in the window right if and only if nothing is held under the one number of the window whose slot it takes. |
| SequenceBuffers.LateInsertEvicts | gbnet/src/reliability.rs:341-360 | The input: `size` and then 0 inserted, and the newer entry is gone. |
| AckWindow.WindowIsExact | gbnet/src/reliability.rs:141-167 | For every buffer size that divides 65536 up to 32768 and any run of arrivals less than half the space from the newest, with no overshift: bit i of the window is set exactly when packet newest - (i + 1) has arrived, number 0 counting as arrived at the start, despite the lossy duplicate filter. |
| AckWindow.RunTracks | gbnet/src/reliability.rs:141-167 | Over the same runs, overshifts included, the newest number is right and what the filter holds has arrived and is recent. |
| AckWindow.ReceivedIsExactIff | gbnet/src/reliability.rs:149-165 | One arrival keeps the window exact if and only if it is not a jump of exactly 64 with one of the 63 low bits set, where the word is not cleared. |
| AckWindow.FalseAcknowledgement | gbnet/src/reliability.rs:150-154 | Packets 1 and 65 alone make the window acknowledge packet 64. |
| AckWindow.FilterIsSound | gbnet/src/reliability.rs:147-148 | What the duplicate filter takes for a duplicate is one. |
| AckWindow.TrustyIffGoodSize | gbnet/src/reliability.rs:147-148 | Of all buffer sizes above 0 the filter can be trusted on every run in reach with exactly those that divide 65536, up to 32768: with any other a run is given after which a new packet is refused. |
| AckWindow.ExactIffGoodSize | gbnet/src/reliability.rs:141-167 | The window is exact after every run in reach without an overshift for exactly the same sizes: after that refusal it is not. |
| AckWindow.AheadIffWithinHalf | gbnet/src/reliability.rs:149-156 | A new packet ahead of the newest becomes the newest exactly when it is less than half the space ahead, or half with the larger residue: the reach cannot be longer. |
| AckWindow.DistanceNeverRefused | gbnet/src/reliability.rs:142-145 | The distance check never refuses any packet. |
| Reliability.ReliableEndpoint.constructor | gbnet/src/reliability.rs:61-90 | A new endpoint of any buffer size, with its windows empty and the initial timeout; it is usable with a size above 0. |
| Reliability.ReliableEndpoint.NextSequence | gbnet/src/reliability.rs:92-96 | Hands out consecutive 16-bit numbers. |
| Reliability.ReliableEndpoint.OnPacketSent | gbnet/src/reliability.rs:99-123 | Evicts one packet when the cap is reached, then tracks the new one and counts it. |
| Reliability.ReliableEndpoint.EvictWorstInFlight | gbnet/src/reliability.rs:126-138 | Any packet none was sent before goes, and counts as evicted. |
| Reliability.ReliableEndpoint.OnPacketReceived | gbnet/src/reliability.rs:141-167 | The duplicate filter and the window move as the receiving specification says. |
| Reliability.ReliableEndpoint.ProcessAcks | gbnet/src/reliability.rs:172-223 | The whole sending half after an acknowledgement, the acknowledged messages in order, and the fast-retransmit list. |
| Reliability.ReliableEndpoint.CollectAcked | gbnet/src/reliability.rs:176-190 | The loop over the bits finds exactly the named numbers that are in flight, in order. |
| Reliability.ReliableEndpoint.NackTheRest | gbnet/src/reliability.rs:200-220 | Each packet in flight that the window covers but omits gains a miss; those reaching three are listed, each once, in any map order. |
| Reliability.ReliableEndpoint.AckSingle | gbnet/src/reliability.rs:225-239 | Removes the packet, takes a round-trip sample and a delivery outcome from it. |
| Reliability.ReliableEndpoint.UpdateRtt | gbnet/src/reliability.rs:242-253 | One Jacobson/Karels step. |
| Reliability.ReliableEndpoint.RecordLossSample | gbnet/src/reliability.rs:255-261 | Writes one outcome into the ring. |
| Reliability.ReliableEndpoint.PacketLossPercent | gbnet/src/reliability.rs:279-288 | The share of losses among the slots in use. |
| InFlight.NamedIff | gbnet/src/reliability.rs:176-190 | The numbers an acknowledgement names: its own, and each within 64 whose bit is set. |
| InFlight.AfterAcksEffect | gbnet/src/reliability.rs:172-223 | `process_acks` removes exactly the packets in flight among the 65 named numbers, each counted once, and changes only the miss counts of the rest. |
| InFlight.EachIsAccounted | gbnet/src/reliability.rs:99-138 | Over every run, total sent = in flight + acknowledged + evicted + overwritten, and in flight never exceeds the cap. |
| InFlight.ConservedIff | gbnet/src/reliability.rs:99-138 | Total sent = in flight + acknowledged + evicted if and only if no number is used again while its packet is in flight, but for the one evicted. |
| InFlight.NackCountIsMisses | gbnet/src/reliability.rs:200-218 | A packet's counter is the number of acknowledgements that covered but omitted it, saturating at 255. |
| InFlight.ListedOnThirdMiss | gbnet/src/reliability.rs:200-220 | The list that is returned has a packet, once and under its own channel message, on exactly the third acknowledgement that covers but omits it. |
| InFlight.ListedAtMostOnce | gbnet/src/reliability.rs:200-220 | No two acknowledgements both list it while it stays in flight. |
| InFlight.ReportedLossIsZero | gbnet/src/reliability.rs:225-239 | Over any run of the endpoint the reported loss is zero, since only deliveries are ever recorded: as many as packets acknowledged, up to 256. |
| FlightRecords.GivesUpEarliestIffFull | gbnet/src/reliability.rs:99-138 | Over every run a packet is given up if and only if one is sent with as many as allowed in flight, and it is one that none in flight was sent before. |
| FlightRecords.EstimateIsOfAges | gbnet/src/reliability.rs:172-253 | Over every run the estimate is what the ages of the acknowledged packets lead to, each from its last sending to its acknowledgement, in the order they are named; the counters are the numbers and bytes sent and the bytes acknowledged. |
| FlightRecords.NamedNearestFirst | gbnet/src/reliability.rs:176-190 | Packets are named in the order of their distance from the newest. |
| FlightRecords.HandsOnMessages | gbnet/src/reliability.rs:172-239 | What an acknowledgement hands on is the channel and number of each packet it takes, as it was sent, in that order. |
| FlightRecords.RoundTripInRange | gbnet/src/reliability.rs:225-253 | With every acknowledged packet between two ages, from the first on the smoothed round trip lies between them and the timeout in 50..2000 ms. |
| FlightRecords.TimeoutAtFirst | gbnet/src/reliability.rs:61-90 | Until a packet is acknowledged the timeout is 100 ms. |
| Acknowledgement.EachCountsOnce | gbnet/src/reliability.rs:99-239 | Over every run whatever of sender, network and peer, the counter of acknowledged packets is the number of different packets taken as such. |
| Acknowledgement.ReportIsRightIff | gbnet/src/reliability.rs:172-223 | What a report with an exact window says of a packet in flight, that it has come and is among the last 65 or not, is right if and only if no later packet of the same 16-bit number is one the report tells of in its place. |
| Acknowledgement.ReportMissesIff | gbnet/src/reliability.rs:200-213 | A report with an exact window counts a miss against a number if and only if the latest packet of that number is one of the 64 before the newest and has not come. |
| Acknowledgement.AcknowledgedHaveArrivedIff | gbnet/src/reliability.rs:99-223 | Over any run with exact windows that loses, repeats and delays packets and reports, the packets taken as acknowledged have all arrived (or are number 0) if and only if those have that were so mistaken for another. |
| Acknowledgement.AcknowledgedHaveArrived | gbnet/src/reliability.rs:99-223 | In particular where no packet is reported on while in flight a whole cycle of numbers away from the newest. |
| Acknowledgement.ReportsTakeWhatCameIff | gbnet/src/reliability.rs:172-223 | On such a run a report, however late, takes out of flight exactly the packets that had come when it was written and are at most 64 before the newest if and only if none in flight is mistaken. |
| Acknowledgement.StepIsSane | gbnet/src/reliability.rs:99-223 | Every send, arrival and report at any distance keeps the numbers in flight apart from those acknowledged, which are counted once. |
| Acknowledgement.LosesPacket64 | gbnet/src/reliability.rs:149-190 | A run on which the jump of 64 makes the sender take packet 64, which never came, as delivered. |
| Acknowledgement.LosesStalePacket | gbnet/src/reliability.rs:172-239 | A run, its windows exact throughout, on which packet 65537, not tracked, is acknowledged and the sender takes packet 1, which never came, as delivered. |
| Acknowledgement.ArrivedIs | gbnet/src/reliability.rs:61-90 | Number 0 is the only one that counts as arrived without having come. |
| Acknowledgement.FirstIsTakenUnseen | gbnet/src/reliability.rs:61-190 | So the first packet is taken as acknowledged from a peer that has got nothing. |
| RttEstimator.EstimateStaysInRange | gbnet/src/reliability.rs:242-253 | Over any run of non-negative samples the smoothed time stays between the least and greatest of them and the timeout in 50..2000 ms. |
| RttEstimator.SteadyLine | gbnet/src/reliability.rs:242-250 | After n equal samples s the smoothed time is s and the variation (s/2)(3/4)^(n-1), as section 2 of RFC 6298 has it. |
| RttEstimator.SteadyTimeout | gbnet/src/reliability.rs:242-253 | The timeout is then s + 2s(3/4)^(n-1), in whole milliseconds from 50 to 2000. |
| RttEstimator.OneMoreSample | gbnet/src/reliability.rs:246-250 | One more sample moves the smoothed time an eighth of the way to it and the variation a quarter of the way to its distance. |
| LossRing.ReportsRecentShare | gbnet/src/reliability.rs:255-288 | The reported loss is the lost share of the last min(n, 256) outcomes, wherever the ring was cut. |
| LossRing.RingHolds | gbnet/src/reliability.rs:255-261 | Each of the last 256 outcomes stands in its own slot. |
| BitIo.BitBuffer.New | gbnet/src/serialize/mod.rs:47-56 | An empty buffer to write to. |
| BitIo.BitBuffer.Measure | gbnet/src/serialize/mod.rs:58-67 | An empty buffer that only counts. |
| BitIo.BitBuffer.FromBytes | gbnet/src/serialize/mod.rs:91-99 | A buffer to read, all its bits ahead. |
| BitIo.BitBuffer.WriteBit | gbnet/src/serialize/mod.rs:266-289 | Appends one bit and leaves zeros after it, in either mode. |
| BitIo.BitBuffer.WriteBits | gbnet/src/serialize/mod.rs:291-313 | Appends exactly the n-bit big-endian form of the value mod 2^n, on both paths and in measure mode, or refuses more than 64. |
| BitIo.BitBuffer.WriteBytesFast | gbnet/src/serialize/mod.rs:130-149 | The byte path appends those bits. |
| BitIo.BitBuffer.WriteBitsOptimized | gbnet/src/serialize/mod.rs:151-203 | The masked path appends the same bits. |
| BitIo.BitBuffer.Flush | gbnet/src/serialize/mod.rs:121-128 | Pads to a byte with zeros. |
| BitIo.BitBuffer.IntoBytes | gbnet/src/serialize/mod.rs:86-89 | The bytes are the bits written and the padding. |
| BitIo.BitBuffer.ReadBit | gbnet/src/serialize/mod.rs:321-336 | Takes the next bit, or reports the end. |
| BitIo.BitBuffer.ReadBits | gbnet/src/serialize/mod.rs:338-355 | Succeeds exactly when at most 64 bits are asked for and that many remain, with the number they spell; what a failed read uses up depends on the path. |
| BitIo.BitBuffer.ReadBytesFast | gbnet/src/serialize/mod.rs:205-225 | The byte path reads that number and on failure uses nothing. |
| BitIo.BitBuffer.ReadBitsOptimized | gbnet/src/serialize/mod.rs:227-262 | The masked path reads the same number and on failure uses what was left. |
| BitIo.WritesReadBack | gbnet/src/serialize/mod.rs:291-355 | Any list of writes followed by reads of the same widths gives the masked values, at any alignment and before any suffix. |
| BitIo.ValueRoundTrip | gbnet/src/serialize/mod.rs:291-313 | A value written in n bits spells itself mod 2^n. |
| BitIo.BitsRoundTrip | gbnet/src/serialize/mod.rs:338-355 | Every string of n bits is the n-bit form of the number it spells. |
| WireFormats.MostSignificantFirst | gbnet/src/serialize/mod.rs:291-313 | Bit i of an n-bit number is the one worth 2^(n-1-i). |
| WireFormats.BytesMostSignificantFirst | gbnet/src/serialize/mod.rs:266-289 | The bits of a byte stand with the one worth 128 first. |
| Codec.BitSerialize | gbnet/src/serialize/collections.rs:268-353 | Writes exactly the bits of the value, or those before the first part that does not fit, at any alignment, in either mode. |
| Codec.SerializeParts | gbnet/src/serialize/collections.rs:268-290 | The loops over vectors, arrays and record fields. |
| Codec.BitDeserialize | gbnet/src/serialize/collections.rs:292-364 | Reads exactly what the parser specification reads, errors included. |
| Codec.DeserializeParts | gbnet/src/serialize/collections.rs:292-310 | The loops that fill vectors, arrays and record fields. |
| Codec.RoundTrip | gbnet/src/serialize/collections.rs:137-149 | Every nesting of integers, flags, options, vectors, arrays, tuples and enumerations reads back equal before any suffix, with the reader exactly at its end. |
| Codec.ReadsOnlyWritten | gbnet/src/serialize/collections.rs:292-364 | Conversely, whatever is read is the unique encoding of what it is read as. |
| Codec.TruncatedIsRefused | gbnet/src/serialize/collections.rs:292-364 | Every proper prefix of an encoding is refused, for want of bits and with no other error. |
| Codec.WritesIffFits | gbnet_macros/src/lib.rs:332-405 | Writing succeeds exactly when every number fits its width and every vector its bound; otherwise InvalidData. |
| Codec.DefaultLengthBits | gbnet/src/serialize/collections.rs:268-275 | Without a bound of its own a vector's length takes 16 bits. |
| WireFormats.CodecLayout | gbnet/src/serialize/collections.rs:268-353 | A flag stands before what may be missing, a count, in 16 bits by default, before a vector, and a number before a choice. |
| Packets.Serialize | gbnet/src/packet.rs:105-121 | Succeeds exactly when the channel fits three bits; the bytes are header, type, zero padding, payload. |
| Packets.Deserialize | gbnet/src/packet.rs:124-156 | Computes the parse of the bytes, errors included. |
| Packets.TakePayload | gbnet/src/packet.rs:134-144 | The payload is what follows the byte the header ends in. |
| Packets.PacketRoundTrip | gbnet/src/packet.rs:105-156 | Every packet whose channel fits three bits survives serialize and deserialize. |
| Packets.AcceptedIsPacket | gbnet/src/packet.rs:124-156 | Whatever is accepted is the encoding of the packet it gives, but for the padding bits. |
| Packets.TypeValues | gbnet/src/packet.rs:25-79 | A packet type with its fields can be written exactly when its channel fits. |
| WireFormats.PacketLayout | gbnet/src/packet.rs:9-121 | Bit for bit: protocol 32, sequence 16, ack 16, window 64, four bits of type with the fields of all fourteen types, zeros to the byte, payload. |
| Crc32c.ComputeCrc32c | gbnet/src/security.rs:14-27 | The nested loops compute the CRC32C specification. |
| Crc32c.ShiftByte | gbnet/src/security.rs:18-24 | Eight turns of the inner loop. |
| Crc32c.AppendCrc32 | gbnet/src/security.rs:30-33 | The frame is the data and its checksum, little-endian. |
| Crc32c.FrameRoundTrip | gbnet/src/security.rs:30-53 | A frame is accepted and gives back its data. |
| Crc32c.AcceptedIffResidue | gbnet/src/security.rs:36-53 | A frame is accepted exactly when the checksum register over all of it ends at the constant residue (section 12.1 of RFC 3720). |
| Crc32c.NoBurstGoesUnseen | gbnet/src/security.rs:14-53 | No two accepted frames of equal length differ only within 32 consecutive bits, wherever these lie. |
| Crc32c.FourBytesNeverUnseen | gbnet/src/security.rs:14-53 | In particular none differ only within four consecutive bytes, payload and trailer alike. |
| Crc32c.NoOddErrorGoesUnseen | gbnet/src/security.rs:14-53 | No two accepted frames of equal length differ in an odd number of bits, wherever these lie. |
| Crc32c.ShiftIsLinear | gbnet/src/security.rs:18-24 | The shift step is linear over exclusive or. |
| Crc32c.AbsorbAllIsBitwise | gbnet/src/security.rs:14-27 | Absorbing byte by byte is absorbing bit by bit. |
| Batching.BatchMessages | gbnet/src/congestion.rs:270-315 | The loop computes the batches of the greedy packing. |
| Batching.UnbatchMessages | gbnet/src/congestion.rs:318-343 | The loop computes the parse of a batch. |
| Batching.GroupsAreRight | gbnet/src/congestion.rs:270-315 | Each batch holds 1 to 255 messages, any of two or more fits the size, and together they are the list in order. |
| Batching.NoPackingIsSmaller | gbnet/src/congestion.rs:270-315 | No order-preserving packing within those rules uses fewer batches. |
| Batching.GreedyStaysAhead | gbnet/src/congestion.rs:270-315 | Against any other packing, prefix by prefix, the greedy one has used no more batches, and where as many its last is no fuller. |
| Batching.BatchRoundTrip | gbnet/src/congestion.rs:270-343 | Unbatching all batches in order gives the list back if and only if every message is at most 65535 bytes. |
| WireFormats.BatchLayout | gbnet/src/congestion.rs:270-315 | Every batch is its count, from 1 to 255, and then each message after its length in two bytes, high one first; one of more than one message is within the size asked for to the byte. |
| WireFormats.UnbatchReadsIff | gbnet/src/congestion.rs:318-343 | What is read of a batch is exactly what its bytes begin with: its count and as many messages each after its length; anything else is refused. |
| WireFormats.ChannelLayout | gbnet/src/channel.rs:129-147 | A channel message is its number in two bytes, high one first, and the data. |
| Fragments.HeaderRoundTrip | gbnet/src/fragment.rs:42-63 | A header survives the trip whatever follows it. |
| Fragments.HeaderIsItsBytes | gbnet/src/fragment.rs:42-63 | Six bytes are the header they parse to, and no other. |
| WireFormats.FragmentLayout | gbnet/src/fragment.rs:42-63 | The header is the message number in four bytes, high one first, the index and the count. |
| Fragments.FragmentMessage | gbnet/src/fragment.rs:71-103 | Empty, too many, or exactly the pieces of the message behind their headers, none empty and none over size. |
| Fragments.PiecesMakeMessage | gbnet/src/fragment.rs:84-101 | The pieces in order are the message. |
| Reassembly.FragmentBuffer.constructor | gbnet/src/fragment.rs:116-128 | All slots empty. |
| Reassembly.FragmentBuffer.Insert | gbnet/src/fragment.rs:130-145 | Fills an empty slot and counts it, ignores a duplicate or an index out of range, and says whether the buffer is complete. |
| Reassembly.FragmentBuffer.Assemble | gbnet/src/fragment.rs:147-161 | The fragments in order, or nothing if one is missing. |
| Reassembly.FragmentAssembler.constructor | gbnet/src/fragment.rs:173-180 | No buffers, counter at 0. |
| Reassembly.FragmentAssembler.Store | gbnet/src/fragment.rs:200-215 | Stores the fragment in the message's own buffer, new if need be, touching no other, and takes the buffer out when complete. |
| Reassembly.FragmentAssembler.ProcessFragment | gbnet/src/fragment.rs:183-216 | Cleaning up, the header, the count mismatch, eviction, storing and completion, as one relation. |
| Reassembly.FragmentAssembler.Cleanup | gbnet/src/fragment.rs:219-236 | Exactly the buffers past the timeout go, and their bytes off the counter. |
| Reassembly.FragmentAssembler.ExpireOldest | gbnet/src/fragment.rs:238-249 | Any buffer none is older than goes, and its bytes. |
| ReassemblyRuns.OnlyWholeMessages | gbnet/src/fragment.rs:183-216 | Whatever the interleaving, duplication, timeouts, evictions and traffic under other numbers, what comes out under a message's number is that message. |
| ReassemblyRuns.LastFragmentDelivers | gbnet/src/fragment.rs:183-216 | With no timeout and the bytes within the limit a fragment gives back the message exactly when it is the last one missing since it was last complete. |
| FragmentExpiry.OutOnlyInTime | gbnet/src/fragment.rs:183-236 | On a clock that does not run back, when a message comes out each of its fragments has come less than the timeout before. |
| FragmentExpiry.IgnoredButForTime | gbnet/src/fragment.rs:183-195 | A fragment too short for its header, or of another count than its message has begun with, does nothing but drop exactly the buffers past the timeout. |
| FragmentExpiry.RepeatsChangeNothing | gbnet/src/fragment.rs:130-145 | One past the count, or come before, changes nothing that is held. |
| ReassemblyRuns.CounterIsAheadByWaste | gbnet/src/fragment.rs:202-213 | The counter never falls below the bytes held; it is ahead by exactly the bytes of duplicate and out-of-range fragments so far. |
| ReassemblyRuns.AssertionHoldsIffNoWaste | gbnet/src/fragment.rs:219-236 | The debug assertion holds if and only if no such bytes have come. |
| Starvation.CompletesIffOthersSuffice | gbnet/src/fragment.rs:196-213 | With the counter ahead of the bytes held by the limit, a message of two or more fragments sent alone, each once in any order while nothing expires, comes out if and only if at least as many older buffers are there to be evicted as it has fragments. |
| Starvation.WasteStarves | gbnet/src/fragment.rs:196-213 | With fewer, counting what is held of it already, no order, repetition or timing of its fragments ever gets it out. |
| Starvation.WasteIsReached | gbnet/src/fragment.rs:183-249 | A run of four fragments from the empty assembler after which that is so for every message of two or more fragments under a number not in use, at any limit of 2 or more. |
| MtuSearch.MtuDiscovery.constructor | gbnet/src/fragment.rs:273-286 | The search over the range, the low end as the safe default. |
| MtuSearch.MtuDiscovery.NextProbe | gbnet/src/fragment.rs:293-314 | The end of the search, the wait, or the next midpoint, with one reading of the clock for the wait and one for the stamp. |
| MtuSearch.MtuDiscovery.OnProbeSuccess | gbnet/src/fragment.rs:317-322 | A size not below the low end raises it. |
| MtuSearch.MtuDiscovery.OnProbeTimeout | gbnet/src/fragment.rs:325-327 | The high end comes down to the probe. |
| MtuSearch.MtuDiscovery.CheckProbeTimeout | gbnet/src/fragment.rs:339-348 | A probe past its timeout counts as too large. |
| MtuSearch.SearchNarrows | gbnet/src/fragment.rs:293-348 | With each probe answered, after k of them the answer is still inside, what is discovered never exceeds it, and the interval is at most the range divided by 2^k, rounded up. |
| MtuSearch.SearchIsExact | gbnet/src/fragment.rs:293-348 | When the search ends the size discovered is the largest that gets through, for any initial range up to 2^10. |
| MtuSearch.CeilShiftIsCeilDiv | gbnet/src/fragment.rs:311-311 | Halving k times, rounding up, is dividing by 2^k and rounding up. |
| MtuSearch.RoundsAreFew | gbnet/src/fragment.rs:294-297 | No search takes more than ten probes. |
| MtuSearch.RoundsHalveRange | gbnet/src/fragment.rs:293-348 | A range of at most 2^k takes no more than k probes. |
| MtuSearch.StraddlesMeans | gbnet/src/connection/io.rs:68-190 | With each reading of the clock its own, a tick straddles the deadline if and only if the deadline falls between the probe's reading and the check's, or the tick takes the whole timeout. |
| MtuSearch.TickedIs | gbnet/src/connection/io.rs:68-190 | Driven as the connection does, probe before check, a tick lowers the high end to the current probe if it straddles and otherwise leaves it. |
| MtuSearch.StaysIffOnTime | gbnet/src/connection/io.rs:68-190 | Over a run the high end stays where it began throughout if and only if no tick of it straddles a deadline. |
| MtuSearch.DiscoveredGetsThrough | gbnet/src/connection/io.rs:68-190 | On every run, straddling or not, what is discovered is the low end or a probe that got through. |
| MtuSearch.OnlyRungs | gbnet/src/connection/io.rs:68-190 | On a run with no straddling tick, whatever probes and acknowledgements are lost, late or repeated, what is discovered is the range less one of its first ten halvings, and gets through. |
| MtuSearch.MissesBelowTheMiddle | gbnet/src/connection/io.rs:68-190 | On such a run a size that gets through is missed: with the limit below the first probe nothing above the low end is ever discovered. |
| MtuSearch.StraddlingDiscovers | gbnet/src/connection/io.rs:68-190 | With one straddling tick it can be: 732 over 576..1200 with 800 getting through. |
| MtuSearch.PromptIsExactIff | gbnet/src/connection/io.rs:68-190 | With every probe that gets through acknowledged before the next tick and no tick straddling, the completed search has found the target if and only if that is one of the first ten rungs. |
| MtuSearch.LateCheckClosesSearch | gbnet/src/fragment.rs:339-348 | A check after the acknowledgement leaves the search alone if and only if the timeout is not past; otherwise it closes the search on the probe that got through. |
| Priority.PriorityAccumulator.Register | gbnet/src/priority.rs:29-37 | A new entry with nothing accumulated. |
| Priority.PriorityAccumulator.Unregister | gbnet/src/priority.rs:40-42 | That entry goes. |
| Priority.PriorityAccumulator.Accumulate | gbnet/src/priority.rs:45-49 | Every entry grows by its base times the step, in any map order. |
| Priority.PriorityAccumulator.ApplyModifier | gbnet/src/priority.rs:52-56 | One entry is scaled. |
| Priority.PriorityAccumulator.DrainTop | gbnet/src/priority.rs:61-93 | For some order by priority, ties anyhow, the greedy choice within the budget; those chosen start again from zero. |
| Priority.ChosenIffItFits | gbnet/src/priority.rs:77-84 | An entity is chosen exactly when it fits beside what was chosen before it. |
| Priority.WithinBudget | gbnet/src/priority.rs:77-84 | The selected sizes never exceed the budget. |
| Priority.NobodyStarves | gbnet/src/priority.rs:45-93 | In any k + n ticks every entity is selected, where k ticks of its base outweigh one tick of everyone else at full base, whatever the map order and ties. |
| Priority.SelectedInTime | gbnet/src/priority.rs:1-93 | The promise in numbers: within ceil(n * B / b) + n ticks. |
| Priority.TooLargeIsNeverSelected | gbnet/src/priority.rs:79-81 | What does not fit the budget is never selected, so the condition on sizes is needed. |
| DeltaCodec.DiffThenApply | gbnet_macros/src/delta.rs:59-86 | Applying a difference gives the current state, and exactly the changed fields are in it. |
| DeltaCodec.Apply | gbnet_macros/src/delta.rs:74-86 | Updates in place exactly the fields of the delta. |
| DeltaCodec.SerializeDelta | gbnet_macros/src/delta.rs:88-123 | The mask loop and the changed fields, bit for bit. |
| DeltaCodec.DeserializeDelta | gbnet_macros/src/delta.rs:125-181 | Reads exactly what the delta parser specification reads. |
| DeltaCodec.MaskBits | gbnet_macros/src/delta.rs:184-196 | Bit i of the mask is set exactly when field i changed. |
| DeltaCodec.DeltaReadsBack | gbnet_macros/src/delta.rs:88-222 | A delta reads back with each number cut to its width, before any suffix. |
| DeltaCodec.DeltaRoundTripIff | gbnet_macros/src/delta.rs:88-222 | It reads back unchanged if and only if every changed number fits its width; one that does not is silently another number. |
| DeltaBaselines.DeltaTracker.constructor | gbnet/src/delta.rs:35-41 | Nothing pending, nothing confirmed. |
| DeltaBaselines.DeltaTracker.Encode | gbnet/src/delta.rs:45-67 | The payload against the confirmed baseline or whole, and the snapshot remembered unless the writing failed. |
| DeltaBaselines.DeltaTracker.OnAck | gbnet/src/delta.rs:69-84 | The first pending snapshot of that number becomes the baseline and older ones go. |
| DeltaBaselines.WritePayload | gbnet/src/delta.rs:46-56 | The sentinel and the whole state, or the baseline number and the difference. |
| DeltaBaselines.Decode | gbnet/src/delta.rs:86-104 | Computes the decoding specification against the stored baselines, errors included. |
| DeltaBaselines.BaselineManager.PushSnapshot | gbnet/src/delta.rs:142-157 | Expired snapshots go from the front, one more if full, and the new one is stored. |
| DeltaBaselines.BaselineManager.GetBaseline | gbnet/src/delta.rs:160-166 | The state most recently stored under the number. |
| BaselineLife.HeldIff | gbnet/src/delta.rs:142-157 | After any list of pushes on a clock that does not run back, what is held is exactly the pushes with fewer than max(maxSnapshots, 1) after them and no older than the timeout at the last one, in order. |
| BaselineLife.DecodesIffBaseHeld | gbnet/src/delta.rs:86-166 | Over runs of the protocol: a delivery decodes to its state if and only if it was sent whole or its baseline was stored within the timeout of the last storing and with fewer stored since than are kept; otherwise it is refused. |
| DeltaProtocol.DecodesWhatWasEncoded | gbnet/src/delta.rs:45-104 | For every pattern of loss, repetition, reordering, eviction and expiry in which 65535 is not used and a delivery's baseline is within a cycle of numbers of what is stored: what arrives decodes to exactly the state encoded, or, exactly when its baseline is no longer held, to the missing-baseline error. Acknowledgements may be from any time. |
| DeltaProtocol.ConfirmedNeverMovesBack | gbnet/src/delta.rs:69-84 | On such a run whose acknowledgements are within half the numbers of what is pending, the confirmed baseline number never moves back. |
| Confirmation.ConfirmsIff | gbnet/src/delta.rs:58-84 | On such a run an acknowledgement makes its state the baseline if and only if it is newer than the one that is and fewer than max(maxPending, 1) states have been encoded since; otherwise the baseline stays. |
| DeltaProtocol.FarAckMovesBack | gbnet/src/delta.rs:69-84 | Acknowledgements further off can move it back: 40000 and then 1, both pending. |
| DeltaProtocol.StepKeeps | gbnet/src/delta.rs:45-166 | Every encode, every delivery within that distance and every acknowledgement keeps the two ends' wire numbers standing for the right unbounded ones. |
| StaleBaselines.DecodesIff | gbnet/src/delta.rs:86-104 | A delivery at any distance: with nothing stored under its baseline's wire number an error; otherwise its own state if and only if what was stored there last equals that state in every field the difference leaves out, which the baseline itself does. |
| StaleBaselines.StaleRun | gbnet/src/delta.rs:45-166 | For any two states a run within the distances up to its last delivery, where a late difference from number 1, come round as 65537, decodes to the other state. |
| DeltaProtocol.SentinelDecodesIff | gbnet/src/delta.rs:86-104 | Against a baseline numbered 65535, for every layout, baseline, state and padding, the payload decodes to its state if and only if the bits of the difference and the padding begin with the whole state. |
| DeltaProtocol.SentinelRun | gbnet/src/delta.rs:45-104 | A run of the protocol gets there: a state is sent under 65535, stored and acknowledged, and the next one decodes if and only if that condition holds. |
| DeltaProtocol.SentinelNumberMisleads | gbnet/src/delta.rs:90-91 | The condition fails for two one-bit fields that stay set: they come back clear. |
| RateLimit.ConnectionRateLimiter.Allow | gbnet/src/security.rs:201-214 | Admits while fewer than the limit are remembered in the window, and remembers what it admits. |
| RateLimit.ConnectionRateLimiter.Cleanup | gbnet/src/security.rs:216-223 | Forgets exactly what is older than the window, and addresses with nothing left. |
| RateLimit.Retain | gbnet/src/security.rs:206-206 | Keeps the moments less than a window ago, in order. |
| RateLimit.AllowedIsAccepted | gbnet/src/security.rs:201-223 | On a clock that does not run back, the requests the limiter lets through are those with fewer than the limit let through in the window before them. |
| RateLimit.NoWindowOverflows | gbnet/src/security.rs:201-214 | On such a clock, wherever a window is laid over any run, the limiter has let through at most the limit of requests of an address in it. |
| RateLimit.AdmitsAsPromised | gbnet/src/security.rs:201-223 | On a clock that does not run back a request is admitted exactly when fewer than the limit were accepted in the window before it; neither cleaning up nor other addresses change a decision. |

## Left out

- Sockets, wire plumbing, client, server and examples: I/O around the cores modelled here.
- The connection state machine: channels and endpoints are joined with their peers but not with each other, since headers of fragments and retransmissions are not registered with the endpoint, so an acknowledged packet need not mean a delivered message.
- Encryption, cookies, connect tokens, the token validator: foreign code or secrecy assumptions.
- The macros' parsing of attributes: only the codecs they generate are modelled, over any list of fields.
- Congestion control, bandwidth tracking, interest management, interpolation, simulation, statistics and configuration checks: thresholds and one-branch facts.
- Rounding, infinities and NaN of floating point; UTF-8 validity of strings; signed integers and the byte-aligned mode of the codec.
- Overflow of the 64-bit counters, which would take longer than any run.
- The library sort and the iteration order of hash maps: any order they could give is allowed.
- A hard memory cap for the assembler and exactly-once reassembly: neither is so, one buffer at most is evicted per call and a late full set of duplicates rebuilds a message.
- Explicit `variant_id`s of enumerations: the variants here are numbered by position, which is what the macro does without them.
- More than 64 fields in a delta: the mask is one word, and the writer refuses more.
- Records without methods of their own (sent packets, queued messages, priority entries) are values in the maps that own them.
- AckWindow.WindowIsExact: covers sizes that divide 65536 up to 32768 and arrivals less than half the space from the newest, because `AckWindow.ExactIffGoodSize` shows that it fails with every other size and `AckWindow.AheadIffWithinHalf` what a longer reach does.
- OrderedDelivery.DeliveredInOrder: covers arrivals within 32767 of the receiver's position, because `OrderedDelivery.WindowIsTight` shows which further ones fail.
- Retransmission.GivenUpOnlyInTheEnd: times the stretch after the last fast retransmit of the message, because one sends it sooner on purpose; how often it is resent is bounded on every run.
- DeltaProtocol.DecodesWhatWasEncoded: takes states that fit their field widths, because one that does not is already changed by the codec, as `DeltaCodec.DeltaRoundTripIff` says exactly; and numbers other than 65535 and baselines less than 65536 from everything stored, because `DeltaProtocol.SentinelDecodesIff` and `StaleBaselines.DecodesIff` say exactly what happens to a delivery otherwise.
- DeltaProtocol.ConfirmedNeverMovesBack: takes acknowledgements less than 32768 from everything pending as well, because `DeltaProtocol.FarAckMovesBack` shows what one further off does.
- Acknowledgement.AcknowledgedHaveArrivedIff: takes the windows reported to be exact, because `AckWindow.ReceivedIsExactIff` and `Acknowledgement.LosesPacket64` show what fails otherwise.
- Acknowledgement.AcknowledgedHaveArrived: takes packets to leave flight within a cycle of numbers, because `Acknowledgement.LosesStalePacket` shows one that does not; `Acknowledgement.AcknowledgedHaveArrivedIff` is the exact condition.
- MtuSearch.SearchIsExact: takes the timeout check of each probe to come before the next probe and a range the ten attempts can cover; `MtuSearch.PromptIsExactIff` is the connection's own driving.
- MtuSearch.PromptIsExactIff: takes no tick to straddle a deadline, as `MtuSearch.OnlyRungs` does; with one the search can leave the rungs, as `MtuSearch.StraddlingDiscovers` shows, and only `MtuSearch.DiscoveredGetsThrough` is promised.
