# INT-based HPCC and DCTCP: a verified model

The repository runs two congestion controllers over one UDP harness. HPCC senders (a Python
one, a C reimplementation, and a second Python version) steer a window by in-band telemetry
that P4 switches write into data packets and a reflector echoes in ACKs. A DCTCP-style sender
steers by echoed ECN marks. This project models the controllers, the switch, the reflector
and the codecs in Dafny and proves what they keep over whole runs.

How the files fit together:

- `Common`, `Bytes`: shared types, clamping, big-endian integers, slices.
- `WireFormat`, `CWireFormat`: the Python codecs, and the C codecs over caller buffers.
- `Reflector`: the ACK builder and both ACK parsers.
- `Layouts`, `Frames`: every message and frame byte by byte, with offsets and constants written
  out, and that codecs, reflector, parsers and switch read and write exactly that.
- `DataPlane`: parser, tagging, deparser. `Switch`: the egress control with its registers,
  frame by frame and over whole runs. `Path`: whole frames through any number of switches.
- `Utilization`: U and the per-port anchors read off one ACK. `RecordOrder`: when the order of
  its records matters.
- `Window`: the HPCC window update as a map, and its convergence. `Average`: the exponentially
  weighted average of both controllers, step by step and as a sum.
- `SenderSpec`: both Python HPCC senders as one state machine over atomic steps (transmit, one
  ACK, one timer pass). All shared fields change under one lock, so a run is any interleaving
  of these steps. `Conservation`, `Epochs`, `Flights`, `FlightsV1`, `Budgets` and `Scaling`
  prove its properties over all runs. `Rto` is the timeout of all senders.
- `SenderLaws`, `CSenderLaws`, `DctcpLaws`: every step of the three machines a second time, as a
  relation of the states before and after with all formulas, guards and constants written out,
  and that the machines' runs are exactly the runs that satisfy it step by step.
- `HpccSender`, `HpccSenderV2`: the two controller classes, each method proved equal to a step.
- `HopTable`, `Ring`: the two fixed arrays of the C sender. `CSenderSpec` is its state machine,
  and exactly where that is not V1; `CSender` is the C sender over the arrays, each locked body
  proved to follow the machine, and `Simulation` chains that over whole runs.
- `DctcpSpec`, `Dctcp`, `DctcpSender`: the DCTCP state machine, its properties, its class.
- `Network`: sender, switches, reflector and sender again over a network that loses,
  duplicates and reorders.

Conventions. Floats are reals and `int(w)` is the floor. Clock readings are parameters: a
function from sequence numbers to readings for transmissions, one reading per ACK or timer
pass. `1 <= w_init <= w_max` is assumed, and `w_max <= 4096` for the C sender. The HPCC target
`eta` is positive. Python sequence numbers are unbounded in the sender model; the network
model transmits only those that fit the 32-bit field. Shifts and masks of unsigned words are
division and remainder.

Where the code and its comments differ, the model follows the code:

- The first sender's header says it uses the window snapshot of the ACK that opens the gate.
  It stores snapshots but never reads them; gate and formula use the current `w_ref`. The
  second sender does read snapshots, but of another packet: by then the packet of that ACK has
  been popped, and gate and formula use the oldest packet still unacknowledged. Until a timeout
  intervenes that snapshot is the current reference anyway (`Scaling.ScalesCurrent`); after one
  it need not be (`Scaling.TimeoutMakesDifference`).
- The switch comment says record order does not matter for U. That holds for records of
  distinct ports (`Utilization.OrderIndependent`). For ACKs of any length, U and anchors come
  out the same in every order exactly when records of one port report one reading and, if any
  sample is positive, all records of some port have the greatest one
  (`RecordOrder.OrderFreeIff`). So order matters whenever a packet crosses one port twice
  (`RecordOrder.RepeatedPortMatters`); on `RecordOrder.OrderMatters` already U depends on it.
- The C sender claims the same control loop. Step by step it is, exactly under the conditions
  of `CSenderSpec.StepAgreesIff`: an ACK is a duplicate, or of a number that was sent and with
  room in the hop table for its ports; a timer pass finds an expired packet, or no send time
  that the clock has stepped back behind. Its timer keeps old snapshots where Python takes new
  ones (the first sender never reads them), and its parser takes at most four records where
  Python takes eight (`Reflector.ParsersAgree`). An ACK of a number never sent does not break
  its bookkeeping as it breaks Python's, but an ACK of 2^32-1, which marks empty slots, wipes out
  its flight when that number's own slot is empty (`CSenderSpec.CReceiveKeepsInvIff`).
- The flight property that motivates the second sender is that an update fires only when all
  packets outstanding at the previous one are acknowledged. The first sender has it after an
  update exactly when the flight fits the window just set (`FlightsV1.FlightApartIff`), and
  loses it without any timeout (`FlightsV1.ShrinkingBreaksFlight`). The second sender loses it
  only once a timeout has halved the window (`Flights.TimeoutBreaksFlight`). After an update it
  holds in every continuation without further timeouts exactly when the cumulative point has
  come within the halved window of the last packet that the last timeout sent again
  (`Flights.FlightApartIff`), so always when there was no timeout; `Flights.TimeoutSparesIff`
  decides a timeout that falls between the two updates.

## Model

| member | source | states |
|---|---|---|
| Bytes.DecodeEncode | sender/packet_format.py:58-67 | decoding inverts big-endian encoding for every value that fits its width |
| Bytes.EncodeDecode | sender/packet_format.py:58-67 | encoding inverts decoding for every byte string |
| WireFormat.HopRoundTrip | sender/packet_format.py:109-149 | every in-range INT record survives pack and unpack |
| WireFormat.HopBytesRoundTrip | sender/packet_format.py:109-149 | any 26 bytes are an in-range record whose encoding is those bytes |
| WireFormat.EncodeThenDecode | sender/packet_format.py:192-260 | pack succeeds exactly on in-range packets of at most four records, has the size `total_size` says, and unpack returns the packet whatever padding follows |
| WireFormat.DecodeThenEncode | sender/packet_format.py:192-246 | unpack succeeds exactly when the announced records and payload are there; re-packing gives the same bytes up to padding and the `max_hops` byte |
| WireFormat.UnpackPacket | sender/packet_format.py:209-218 | the appending loop with a moving offset computes the decoding, errors included |
| WireFormat.PacketObject.Pack | sender/packet_format.py:199-207 | returns the encoding; normalises the shim even on a range error, but not when there are too many hops |
| WireFormat.PacketObject.SetEcnEcho | sender/packet_format.py:100-104 | sets the echo bit as asked and keeps the other seven |
| Layouts.PackedRecord | sender/packet_format.py:106-131 | a record can be packed exactly when its seven fields fit 16, 16, 16, 32, 48, 48 and 32 bits, and then lies big-endian at bytes 0, 2, 4, 6, 10, 16 and 22 of 26; nothing else does |
| Layouts.DecodeIsLayout | sender/packet_format.py:209-218 | a packet is decoded from exactly the bytes that hold its shim at 0-3, record k at 4+26k and the payload (number at +0, time at +4, reserved at +12) behind the records that byte 1 announces; decoding fails exactly when they are not all there |
| Layouts.EncodeIsLayout | sender/packet_format.py:199-207 | encoding succeeds exactly for at most four records and fields that fit, and writes that layout with the number of records in byte 1, four in byte 2, and nothing after it |
| Layouts.TotalSizeIsLayout | sender/packet_format.py:249-260 | the advertised size is 20+26n for n in 0..4, for data and ACK packets; anything else is an error |
| CWireFormat.U48Pack | extensions/csender/packet_format.h:76-83 | the six shifted bytes are the big-endian encoding |
| CWireFormat.U48Unpack | extensions/csender/packet_format.h:85-89 | the shifted sum is the big-endian value |
| CWireFormat.IntHopDecode | extensions/csender/packet_format.h:102-111 | agrees with the Python record decoder on every 26 bytes |
| CWireFormat.DataPacketPack | extensions/csender/packet_format.h:115-132 | writes exactly the zero-hop packet and its zero padding, and nothing past it |
| CWireFormat.DataBodyIsEncoded | extensions/csender/packet_format.h:115-132 | those bytes are the Python encoder's output plus padding, and decode to the packet |
| Layouts.FreshPacketIsLayout | extensions/csender/packet_format.h:115-132 | a new packet is 0, 0, 4, 0, then number, time and four zero bytes in network order, then zero padding |
| Reflector.AckEchoesData | receiver/reflector.py:59-84 | an ACK is built for exactly the well-formed payloads; it carries the record bytes verbatim, drops padding, and parses at both senders to the data packet's sequence number and records |
| Layouts.BuildAckIsLayout | receiver/reflector.py:59-84 | byte for byte: an ACK exists exactly for payloads that hold at most four records completely; byte 0 is 1 exactly for codepoint 3, everything up to and with the sequence number is as it came, then the time of receipt and four zero bytes, and padding is dropped |
| Reflector.EchoRoundTrip | receiver/reflector.py:59-84 | every encodable data packet, padded or not, comes back with its own records, marked exactly when it arrived CE-marked |
| Reflector.ParsersAgree | extensions/csender/hpcc_sender.c:304-323 | the C checks accept what the Python checks accept with at most four records, with equal results |
| Layouts.AckParsersReadLayout | sender/hpcc_sender.py:177-190 | the Python and the C parser read a packet from exactly the bytes that hold it, with at most eight and at most four records |
| DataPlane.RunParser | p4src/common/parsers.p4:19-92 | the parser states compute the parse, error cases included |
| DataPlane.RunShimParser | p4src/common/parsers.p4:53-91 | the counted hop loop extracts exactly the announced records, in order |
| DataPlane.ParseThenDeparse | p4src/common/parsers.p4:129-138 | a switch that changes no header emits every accepted frame unchanged |
| DataPlane.PushKeepsRecords | p4src/hpcc.p4:100-102 | pushing onto a stack with room loses no valid record |
| DataPlane.TaggingIsSplicing | p4src/hpcc.p4:77-118 | parse, push and deparse is the 26-byte splice behind the shim; a frame that is not tagged is emitted unchanged |
| DataPlane.LengthsStayConsistent | p4src/hpcc.p4:113-117 | after one switch UDP and IPv4 lengths still match the bytes exactly when the grown datagram fits sixteen bits |
| Frames.IsDataIsLayout | p4src/common/parsers.p4:24-91 | the parser marks a frame as data exactly when bytes 12-13 are 0x0800, byte 23 is 17, bytes 36-37 are 50000 and at most four announced records and the payload are there; the egress control tags it exactly when byte 43 is below 4 |
| Frames.ParserErrorIsLayout | p4src/common/parsers.p4:24-91 | the parser fails exactly on frames cut off in a header that their front announces, or with more than four records on port 50000 or 50001 |
| Frames.SpliceIsLayout | p4src/hpcc.p4:98-117 | byte for byte: the tagged frame has its two length fields 26 larger modulo 2^16, the UDP checksum zero, the hop count one larger and the record at bytes 46-71; every other byte is as it was |
| Switch.HpccEgress.Apply | p4src/hpcc.p4:77-118 | a frame passes untouched, counters included, or gains the record of its port's new total, and only that port's counter moves |
| Switch.HpccEgress.Process | p4src/hpcc.p4:77-118 | parser, egress control and deparser (without the ingress rewriting of MACs and TTL and the IPv4 checksum) map a data frame with room to its splice and every other accepted frame to itself, and do one step of the switch over which the run theorems are proved |
| Frames.ForwardIsLaw | p4src/hpcc.p4:77-118 | one step of the switch, in full: a data frame with room gains the record of its ports, queue, time, capacity and the counter (old + length + 26) mod 2^48, which its port then holds; every other frame that parses passes and no register moves; no other step satisfies this |
| DataPlane.PathRecords | p4src/hpcc.p4:19-22 | on the UDP payload: after any number of switches a packet carries the records of the first four, the last in front, and is otherwise as sent |
| Path.SplicedIsData | p4src/common/parsers.p4:19-92 | the next parser accepts a tagged frame as data, and the next egress control tags it exactly while there is room |
| Path.TravelIsAfterPath | p4src/hpcc.p4:77-118 | a data frame passes any sequence of switches, each parsing what the one before emitted; it arrives as a data frame whose payload is that of the path with the records the registers gave, longer by the records that found room, and so are its length fields modulo 2^16 |
| Path.FrameAfterPath | p4src/hpcc.p4:113-117 | lengths that were right at the start are right at the end of any path exactly when the datagram with all pushed records fits sixteen bits |
| Switch.CounterTelescopes | p4src/hpcc.p4:87-92 | two readings of a port differ by the tagged traffic in between modulo 2^48; below 2^48 the plain difference is that traffic exactly when it is not negative |
| Switch.CountersFollowLog | p4src/hpcc.p4:87-92 | in every run of the egress control over accepted frames, each port's counter is its first value plus the tagged traffic that left the port, modulo 2^48 |
| Switch.PushesItsCounter | p4src/hpcc.p4:86-111 | in every run a tagged frame leaves with a record of the ports, queue and time given, the port's capacity, and the port's counter at that time, its own bytes included |
| Utilization.SampleLawIff | sender/hpcc_sender.py:195-216 | one record, written out: skipped without capacity, anchor, progress in time or base RTT, or with a smaller count, and otherwise sample * link = qdepth * 1500 * 8 / base_rtt + bytes * 8000000 / dt; the port's anchor becomes its time and count; the senders' sample is the one number with that property |
| Utilization.AbsorbLawIff | sender/hpcc_sender.py:192-219 | U and the anchors after an ACK, for any records: each is sampled against the anchors its predecessors left, and U is the greatest sample, or 0 |
| Utilization.SaturatedPort | sender/hpcc_sender.py:210-216 | a port that sent at capacity since its anchor samples 1 with an empty queue, and one more per bandwidth-delay product queued |
| Utilization.AbsorbIsMax | sender/hpcc_sender.py:192-219 | with distinct ports U is the maximum over the samples against the old anchors, or 0, and the anchors are overwritten by the records |
| Utilization.OrderIndependent | sender/hpcc_sender.py:192-219 | any permutation of records of distinct ports gives the same U and anchors |
| RecordOrder.AbsorbTakesFirsts | sender/hpcc_sender.py:192-219 | when records of one port report one reading, U is the maximum over the first record of each port and every anchor becomes its port's reading |
| RecordOrder.OrderFreeIff | sender/hpcc_sender.py:192-219 | for any list of records every order gives the same U and anchors exactly when records of one port report one reading and, if any sample is positive, all records of some port have the greatest one |
| RecordOrder.RepeatedPortMatters | p4src/hpcc.p4:86-111 | no list with two records that one port pushed in a run is free of order, unless the traffic in between is a multiple of 2^48 |
| RecordOrder.OrderMatters | p4src/hpcc.p4:19-22 | two records of a packet that crossed one port twice, on which U itself depends on the order |
| Utilization.SampleMeasuresTraffic | sender/hpcc_sender.py:198-216 | between two readings of a port's counter the sample counts exactly the tagged traffic modulo 2^48, or is skipped when the counter wrapped |
| Utilization.RunMeasuresTraffic | sender/hpcc_sender.py:198-216 | for any two tagged frames of one port in a run of the egress control, the second record sampled against the first counts exactly the tagged traffic that left the port in between; the sample is also written out in these bytes, the queue and the times |
| Window.WindowLawIff | sender/hpcc_sender.py:246-249 | the new window r, written out: strictly between 1 and w_max it satisfies (r - w_ai) * max(u, 1/1000) = b * eta, at a bound the matching inequality; the senders' window is the one number with that property |
| Window.SameGainsContract | sender/hpcc_sender.py:246-255 | updates with the same gains close the gap of two windows by the product of the gains |
| Window.EquilibriumIsFixed | sender/hpcc_sender.py:246-255 | the clamped w_ai/(1-gain) is a fixed point |
| Window.OverloadConverges | sender/hpcc_sender.py:246-255 | with a constant gain below 1 the distance to the fixed point decays geometrically from any window |
| Window.DecayedIsPower | sender/hpcc_sender.py:246-255 | that decay is gain^n times the first distance |
| Window.GainBelowOneIff | sender/hpcc_sender.py:247-248 | a gain is below 1 exactly when the floored utilisation exceeds eta |
| Window.UnderloadGrows | sender/hpcc_sender.py:246-255 | with gains of at least 1 each update adds at least w_ai, up to the cap |
| Window.UnderloadReachesCap | sender/hpcc_sender.py:246-255 | so the cap is reached within (w_max-w)/w_ai updates, rounded up |
| Rto.TimeoutMicros | sender/hpcc_sender.py:76-77 | the timeout in microseconds is 20000 for three base RTTs below 20 ms, 1000000 above 1 s, and 3000000 * base_rtt rounded down in between |
| Rto.OverdueIff | sender/hpcc_sender.py:285-287 | a packet is taken for lost exactly from that age on, in whole microseconds |
| SenderLaws.StepIsLaw | sender/hpcc_sender.py:161-298 | every step of either Python sender as a relation of the states before and after, all numbers written out: send guard and snapshot, popped range, telemetry read or ignored, gate, new window, incarnation, timer test, halved window and re-tagged flight; from a state that keeps the invariant the step is the one step with that relation |
| SenderLaws.RunIsLawful | sender/hpcc_sender.py:161-298 | the runs over which all run theorems are proved are exactly the runs from the initial state whose every step satisfies that relation |
| Scaling.UpdateScales | extensions/hpcc_v2/hpcc_sender_v2.py:226-249 | in every run, timeouts included, an update of the second sender scales the snapshot of packet cum_acked+1 if that is in flight, else the reference before it; the first sender always the latter |
| Scaling.ScalesCurrent | extensions/hpcc_v2/hpcc_sender_v2.py:226-249 | in a run without timeouts the snapshot that an update of the second sender scales equals its current reference |
| Scaling.TimeoutMakesDifference | extensions/hpcc_v2/hpcc_sender_v2.py:286-293 | a run with one timeout whose last update scales a snapshot of 1.5 under a reference of 2.0 |
| Conservation.RunKeepsInv | sender/hpcc_sender.py:161-315 | in every run of either sender the packets in flight are exactly cum_acked+1 .. next_seq-1, at most w_max, windows stay in range, retransmission counts stay 0 |
| Conservation.AckKeepsInvIff | sender/hpcc_sender.py:221-226 | processing an ACK keeps that invariant exactly when its sequence number was sent |
| Conservation.AcceptedIncrease | sender/hpcc_sender.py:270-276 | accepted ACK numbers strictly increase over a run |
| Conservation.NeverStuck | sender/hpcc_sender.py:308-319 | the early exit holds exactly when all packets are sent and acknowledged; before it something is in flight or can be sent |
| Conservation.RemainingWork | sender/hpcc_sender.py:270-298 | accepted ACKs strictly decrease the packets left; a timeout forgets none |
| Conservation.CanFinish | sender/hpcc_sender.py:300-331 | from every reachable state some continuation completes the transfer |
| Conservation.FillAdds | sender/hpcc_sender.py:308-315 | the fill loop keeps the old flight and adds new packets with current snapshots until window or limit binds |
| Epochs.RunSortsSnapshots | sender/hpcc_sender.py:169-175 | over the packets in flight incarnations never decrease, and within one the window snapshots never decrease |
| Flights.TimeoutKeepsFitIff | extensions/hpcc_v2/hpcc_sender_v2.py:286-293 | a timeout keeps every packet within its snapshot exactly when the flight fits the halved window |
| Flights.FlightAlwaysFits | extensions/hpcc_v2/hpcc_sender_v2.py:142-159 | without timeouts, or with ones that find a flight fitting the halved window, every packet and those unacknowledged before it fit the packet's own snapshot |
| Flights.FitsFromPoint | extensions/hpcc_v2/hpcc_sender_v2.py:286-293 | in every reachable state, whatever timeouts came before, all packets fit their snapshots exactly when cum_acked has reached the fit point of the last timeout |
| Flights.UpdateReachesIffFits | extensions/hpcc_v2/hpcc_sender_v2.py:226-253 | right after an update all packets fit exactly when no ACK could fire the next update before everything outstanding is acknowledged |
| Flights.NextUpdateReachesIff | extensions/hpcc_v2/hpcc_sender_v2.py:226-253 | at any point between two updates, timeouts included, every ACK that could fire the next one acknowledges the flight of the first exactly when the last timeout covers it |
| Flights.TimeoutSparesIff | extensions/hpcc_v2/hpcc_sender_v2.py:286-293 | after a timeout between two updates the second cannot fire early exactly when the halved window reaches from the first update to the end of its flight, or that end is next in line |
| Flights.UpdateClearsFlight | extensions/hpcc_v2/hpcc_sender_v2.py:226-253 | nothing outstanding at an update is outstanding at the next one, if the last timeout covers it; timeouts in between included |
| Flights.OneUpdatePerFlight | extensions/hpcc_v2/hpcc_sender_v2.py:226-253 | any two updates are a full flight apart if the packets fitted at the first and the timeouts in between spare them; so in every timeout-free run |
| Flights.FlightApartIff | extensions/hpcc_v2/hpcc_sender_v2.py:226-253 | after an update of any run, in every continuation whose timeouts spare it every later update is a full flight on, if and only if cum_acked had passed the fit point of the last timeout |
| Flights.TimeoutBreaksFlight | extensions/hpcc_v2/hpcc_sender_v2.py:286-294 | a run with one timeout in which two updates are less than a flight apart |
| Flights.LeftoversAreOld | sender/hpcc_sender.py:238-258 | in the first sender a packet left over from before the previous update belongs to an older incarnation when the gate opens |
| FlightsV1.NextUpdateReachesIff | sender/hpcc_sender.py:238-258 | in the first sender, at any point between two updates and timeouts included, every ACK that could fire the next one acknowledges the flight of the first exactly when that flight ends within the present window of it, or its end is next in line |
| FlightsV1.FlightApartIff | sender/hpcc_sender.py:238-258 | in the first sender, in every continuation whose timeouts spare it every later update is a full flight on, if and only if the flight fits the window that the update set |
| FlightsV1.ShrinkingBreaksFlight | sender/hpcc_sender.py:238-258 | a run without timeouts in which two updates are less than a flight apart |
| Epochs.TagIsBoundary | extensions/hpcc_v2/hpcc_sender_v2.py:247-293 | in every reachable state a packet's tag is current exactly when its number is at or past one boundary |
| Epochs.FeedbackPastBoundary | extensions/hpcc_v2/hpcc_sender_v2.py:203-224 | the second sender reads the telemetry of exactly the ACKs past the boundary |
| Budgets.RunBudget | sender/hpcc_sender.py:238-258 | the acknowledgements that all updates of a run waited for sum to at most cum_acked+1 |
| Budgets.UpdatesApart | sender/hpcc_sender.py:242-244 | n updates take at least n base RTTs |
| Budgets.IncarnationCountsCuts | sender/hpcc_sender.py:251-293 | the incarnation is the number of shrinking updates and timeouts |
| Budgets.SmoothedIsWeightedSum | sender/hpcc_sender.py:228-233 | after any run the smoothed utilisation is the initial 1 and the samples read, each weighted by tau and by 1-tau for every later sample |
| Budgets.WindowIsIterated | sender/hpcc_sender.py:246-255 | the window of a timeout-free run is the iterated update of the initial one |
| Budgets.SendersConverge | sender/hpcc_sender.py:246-255 | two timeout-free runs that update with the same gains end within the scaled gap of their initial windows |
| HpccSender.Sender.SendLocked | sender/hpcc_sender.py:161-175 | a new number takes the current window and incarnation as its snapshot, a known one keeps its own and counts a retransmission |
| HpccSender.Sender.ComputeU | sender/hpcc_sender.py:192-219 | the record loop returns the greatest sample of the record-by-record chain and leaves its anchors, by `Utilization.AbsorbLawIff` |
| HpccSender.Sender.MaybeUpdateWindowLocked | sender/hpcc_sender.py:238-258 | below the gate nothing changes; past it the window is the written-out function of the current reference, and the new state is the V1 update over which the epoch and budget theorems are proved |
| HpccSender.Sender.OnAckLocked | sender/hpcc_sender.py:221-236 | the popping loop removes exactly the acknowledged range before U is smoothed and the gate tried |
| HpccSender.Sender.ProcessAck | sender/hpcc_sender.py:269-276 | the new state is the V1 ACK step; a late duplicate changes nothing |
| HpccSender.Sender.GoBackN | sender/hpcc_sender.py:290-298 | clear and resend in order amounts to re-tagging the whole flight with the halved window |
| HpccSender.Sender.RtoCheck | sender/hpcc_sender.py:278-298 | nothing changes unless some packet in flight is 3 base RTTs old, within [20 ms, 1 s], else the whole flight is sent again under half the window, at least 1, and a new incarnation |
| HpccSender.Sender.SendPass | sender/hpcc_sender.py:308-319 | keeps the flight, sends on top of it until window or limit binds, and reports completion exactly when sent and acknowledged equal the limit |
| HpccSenderV2.SenderV2.EarliestUnackedWRef | extensions/hpcc_v2/hpcc_sender_v2.py:226-231 | in every reachable state the snapshot of packet cum_acked+1 if anything is in flight, else the current reference |
| HpccSenderV2.SenderV2.MaybeUpdateWindowLocked | extensions/hpcc_v2/hpcc_sender_v2.py:233-253 | below the gate nothing changes; past it the window is the written-out function of the snapshot of packet cum_acked+1, or of the current reference if nothing is in flight, and the new state is the V2 update over which the flight theorem is proved |
| HpccSenderV2.SenderV2.OnAckLocked | extensions/hpcc_v2/hpcc_sender_v2.py:203-224 | telemetry of an older incarnation changes neither U nor the anchors |
| HpccSenderV2.SenderV2.ProcessAck | extensions/hpcc_v2/hpcc_sender_v2.py:264-272 | the new state is the V2 ACK step, the tag read before the packet is popped |
| HpccSenderV2.SenderV2.RtoCheck | extensions/hpcc_v2/hpcc_sender_v2.py:274-293 | nothing changes unless some packet in flight is 3 base RTTs old, within [20 ms, 1 s], else the whole flight is re-tagged with half the window, at least 1, and a new incarnation |
| HpccSenderV2.SenderV2.SendPass | extensions/hpcc_v2/hpcc_sender_v2.py:303-314 | keeps the flight, sends on top of it until window or limit binds, and reports completion exactly when sent and acknowledged equal the limit |
| HopTable.StoredIsFound | extensions/csender/hpcc_sender.c:177-192 | probing for a stored key ends in its slot, with its anchor |
| HopTable.LookupFinds | extensions/csender/hpcc_sender.c:177-192 | below 256 keys a lookup ends in the key's slot or, for a new key, in a free one |
| HopTable.StoreIsInsert | extensions/csender/hpcc_sender.c:257-268 | writing the probed slot is the dict assignment; no key is stored twice and no probe path gets a gap |
| HopTable.LookupFailsIff | extensions/csender/hpcc_sender.c:180-191 | a lookup fails exactly when the table is full and the key is new |
| HopTable.ProbeLaw | extensions/csender/hpcc_sender.c:177-192 | the probe starts at slot (31*switch_id + egress_port) mod 256, goes up by one and around, and ends at the first slot that is not another port's, or fails after 256 |
| Ring.NextSlotFree | extensions/csender/hpcc_sender.c:197-206 | the slot of the next packet is empty while fewer than 4096 are in flight |
| Ring.InsertHolds | extensions/csender/hpcc_sender.c:197-206 | insertion extends the interval the ring represents |
| Ring.LiveCount | extensions/csender/hpcc_sender.c:195-224 | the live slots number next_seq-1-cum_acked |
| Ring.TimerTestsAgreeIff | extensions/csender/hpcc_sender.c:357 | the unsigned and the signed timer test agree exactly when the clock has not stepped back behind the send time, up to wrap-around |
| CSenderSpec.TableSufficesIff | extensions/csender/hpcc_sender.c:251-278 | the 256-slot table leaves what Python's dict would hold exactly when all ports fit; then U is the same |
| CSenderLaws.CSampleLawIff | extensions/csender/hpcc_sender.c:251-278 | one record at the bounded table, written out: with 256 ports stored the record of a new one is passed over, any other is sampled and stored as in Python |
| CSenderSpec.CReceiveKeepsInvIff | extensions/csender/hpcc_sender.c:208-224 | of all 32-bit ACK numbers only 2^32-1, the marker of an empty slot, breaks the flight invariant, and exactly when no packet in flight occupies its slot; then the flight is forgotten |
| CSenderSpec.StepAgreesIff | extensions/csender/hpcc_sender.c:297-374 | a step of the C sender is the V1 step exactly when the ACK is a duplicate, or of a sent number with room for its ports; the timer finds an expired packet, or no send time ahead of the clock (up to wrap-around) |
| CSenderSpec.RunAgreesIff | extensions/csender/hpcc_sender.c:297-374 | a run of the C machine is a run of the first Python sender, and the other way round, exactly when every event meets that condition |
| CSenderLaws.CRunIsLawful | extensions/csender/hpcc_sender.c:197-374 | the runs of the C machine over enabled events are exactly those whose every step satisfies the written-out relation: an ACK moves the flight only if its number was sent, or is 2^32-1 while slot 4095 is empty, an untracked one above the cumulative point still counts as telemetry, and the timer takes ages modulo 2^64 |
| CSender.Sender.InflightClearUpTo | extensions/csender/hpcc_sender.c:215-224 | frees exactly ack_seq-cum_acked slots and touches no other; up to the marker of an empty slot it frees them all and counts one too many |
| CSender.Sender.SendOne | extensions/csender/hpcc_sender.c:227-248 | refreshes a live slot in place or fills the slot and counts it |
| CSender.Sender.SendLoop | extensions/csender/hpcc_sender.c:511-518 | simulates the Python fill loop |
| CSender.Sender.HopLookup | extensions/csender/hpcc_sender.c:177-192 | the probe loop computes the probe and only names the slot it found |
| CSender.Sender.ComputeU | extensions/csender/hpcc_sender.c:251-278 | for any records returns the greatest sample of the chain at the bounded table and leaves a table that represents it; while the keys fit, Python's U and dict |
| CSender.Sender.MaybeUpdateWindow | extensions/csender/hpcc_sender.c:280-294 | below the gate no field changes; past it the window is the written-out function of the old one, the incarnation counts a shrinking update modulo 2^32, and the V1 update is simulated |
| CSender.Sender.OnAck | extensions/csender/hpcc_sender.c:325-344 | for any records and any 32-bit number the new state matches the C machine's ACK step, or, where that loses the flight, has no packet tracked and a count of -1 |
| CSender.Sender.RtoCheck | extensions/csender/hpcc_sender.c:350-374 | whatever the clock, the new state matches the C machine's timer step, which acts exactly when the age of some packet, modulo 2^64, is 3 base RTTs within [20 ms, 1 s] |
| Simulation.Drive | extensions/csender/hpcc_sender.c:297-374 | driven by any run of the C machine, full tables, unsent numbers and wall clocks stepped back included, the C sender ends in a state matching the run's last |
| Simulation.DriveV1 | extensions/csender/hpcc_sender.c:297-374 | driven by any V1 run all of whose events agree, the C sender ends in a state matching that run's last |
| Dctcp.RunKeepsInv | sender/dctcp_sender.py:135-228 | the DCTCP flight is exactly cum_acked+1 .. next_seq-1, w stays in [w_min, w_max], marked <= total <= cum_acked - last_update_seq |
| Dctcp.AckAdvances | sender/dctcp_sender.py:151-171 | accepted ACKs are those in flight, and the gate never sees an empty window |
| Dctcp.FillAdds | sender/dctcp_sender.py:238-245 | the fill loop keeps the old flight and adds new packets until window or limit binds |
| Dctcp.AcceptedIncrease | sender/dctcp_sender.py:151-205 | accepted ACK numbers strictly increase over a run |
| Dctcp.CountedOnce | sender/dctcp_sender.py:158-183 | accepted ACKs and marks of a run are those of the closed windows plus the open one |
| Dctcp.AlphaIsWeightedSum | sender/dctcp_sender.py:172-173 | alpha is the sum of g(1-g)^(n-1-k) times the mark fraction of window k |
| Dctcp.AlphaIsCapped | sender/dctcp_sender.py:172-173 | after n updates alpha is at most 1-(1-g)^n |
| DctcpLaws.RunIsLawful | sender/dctcp_sender.py:135-228 | the DCTCP runs are exactly the runs from the initial state whose every step satisfies a written-out relation: send guard, popped range, counters, gate, alpha, new window, timer test and halved window |
| DctcpLaws.MarkedCut | sender/dctcp_sender.py:172-178 | in every run an update with a mark in its window has total * (alpha' - (1-g) alpha) = g * marked, and leaves w' > 1 with 2 (w - w') = w alpha', or exactly 1, the latter if and only if w (1 - alpha'/2) <= 1 |
| DctcpLaws.UpdatesIff | sender/dctcp_sender.py:167-168 | an ACK updates the window exactly when it advances the cumulative point to at least floor(w) past the last update |
| DctcpLaws.RunBudget | sender/dctcp_sender.py:167-183 | the windows that all updates of a run waited for sum to at most cum_acked+1 |
| Dctcp.ProgressWithLimit | sender/dctcp_sender.py:223-250 | accepted ACKs approach completion, timeouts forget no packet, the exit is taken only when all is sent and acknowledged |
| DctcpSender.Sender.MaybeUpdateWindowLocked | sender/dctcp_sender.py:164-183 | below the gate nothing changes; past it alpha is the written-out average, a marked window loses the share alpha/2 but keeps at least 1, an unmarked one gains a packet up to the cap, and the counters start over |
| DctcpSender.Sender.ProcessAck | sender/dctcp_sender.py:200-205 | the new state is the DCTCP ACK step, with the zero send time that doubles as not tracked |
| DctcpSender.Sender.RtoCheck | sender/dctcp_sender.py:207-228 | nothing changes unless some packet in flight is 3 base RTTs old, within [20 ms, 1 s], else the whole flight is sent again under half the window, at least 1 |
| DctcpSender.Sender.SendPass | sender/dctcp_sender.py:238-250 | keeps the flight, sends on top of it until window or limit binds, and reports completion exactly when sent and acknowledged equal the limit |
| Network.RunKeepsNet | sender/hpcc_sender.py:177-276 | from an empty network every ACK on the wire carries a number that was sent and the records of one transmission of it; cum_acked is -1 or was reflected |
| Network.ReflectedIsGood | receiver/reflector.py:59-84 | the ACK of a packet that crossed any switches parses to the records of the first four, the last in front |
| Network.SenderRunOf | sender/hpcc_sender.py:260-315 | every sender state reached over the network is reached in a run of the sender's own machine, so all run theorems hold end to end |
| Network.NetworkStepIsSenderStep | sender/hpcc_sender.py:260-276 | the network delivers only ACKs of sent numbers: seen from the sender a network step is an enabled step or none |
| Network.CanFinishOverNetwork | sender/hpcc_sender.py:300-331 | from every state that sender and network can reach, whatever was lost, reordered or timed out, transmissions, reflections and deliveries can complete the transfer, while numbers fit their field |

## Left out

- Failed `sendto` calls: transmissions are taken to succeed. On a failure `next_seq` still advances and the packet is never tracked.
- Sockets, threads, sleeps, the stop flag, event logs and summaries: locked bodies are atomic steps.
- Argument parsing, `measure_base_rtt` and `open_loop.py`. A late base-RTT probe ACK is outside the network model, which starts empty.
- Floating-point rounding, and the float-to-integer conversion of the C sender beyond the floor.
- P4 ingress forwarding with its MAC and TTL rewriting, checksum externs, out-of-range register indices, and what follows a parser error: v1model does not drop the frame, so one cut off before its payload could still be tagged and counted.
- `p4src/dctcp.p4`: a mark is an arbitrary bit per ACK.
- `extensions/qsnap`, topology, controller, experiment and analysis code.
- Delivery of every packet below the cumulative point: the reflector acknowledges single packets and the sender reads them cumulatively, so this is not claimed.
- Network.RunKeepsNet: the sender end is an HPCC sender; the DCTCP sender over the same network is not modelled.
- Simulation.Drive: its runs end where the C sender would send number 2^32-1, the marker of an empty slot, or loses its flight to an ACK of it. Its update clock is monotonic and counts whole microseconds, as the C sender reads it; Python's is finer, so near the base RTT the two gates can differ by what the C clock truncates.
- Simulation.DriveV1: the same limits.
- CSender.Sender.SendLoop: passes that would send number 2^32-1, which the ring then takes for tracked already.
- CSender.Sender.SendOne: the bookkeeping of one transmission; packing into the 2048-byte buffer is `CWireFormat.DataPacketPack`, which needs a padding of at most 2028 bytes.
- DataPlane.PathRecords: the UDP payload only; frames and length fields over a path are `Path.TravelIsAfterPath`.
