# Behavioural NIC: a verified model

This project models the protocol and data-path logic of a behavioural network interface card written in C++20, and proves what that logic guarantees.

The centre is the RoCEv2 reliable-connection transport. A sender cuts a message into MTU-sized packets with First, Middle, Last and Only opcodes and 24-bit packet sequence numbers (PSNs); a responder checks PSNs, reassembles into a scatter-gather list or a registered region, and answers with ACKs, NAKs and completion entries. Each operation is modelled twice: as a step function on values, and as a class method that changes queue pairs, memory and per-queue state in place and is proved equal to the step function. The theorems are about the step functions over all inputs, all packet sequences and all runs. The bytes on the wire go through the modelled codec, so the end-to-end results hold for encoded packets and not only for header records.

Around it stand the reliability manager (cumulative acknowledgement, retries, backoff), DCQCN rate control, the CRC, and the Ethernet half: segmentation, descriptor and completion rings, the loopback queue pair, the weighted round-robin scheduler, interrupt coalescing, the SR-IOV allocator, Internet checksums and the Toeplitz hash.

The main results, in short:

- **Lossy channel.** Whatever a channel drops, repeats or reorders, the packets that advance the receive PSN are a prefix of what was sent, however long the connection, as long as no copy is 2^24 packets stale (`Transport.LossyChannelSafety`, `Transport.LongStreamSafety`). A packet that is not taken leaves the responder's state alone, except exactly one that carries the expected PSN, has its list or range at hand, and a payload that cannot be stored (`Transport.ArrivalDecided`, `Transport.LossesAreInvisible`).
- **Mixed traffic.** Any sequence of SENDs, WRITEs and READs, of any total length, each servable when its turn comes, has exactly its effect, posting by posting, once all its packets have been taken, and each READ is answered exactly once, whatever the channel did on the way. Copies 2^24 packets stale are excluded, and so is deregistering a region during the run; receive entries may be posted and regions registered (`LossyDelivery.PostingsSurviveLossyChannel`).
- **No false completion, within the half space.** If an acknowledgement retires a posted operation whose last packet is at most 2^23 ahead of the packet acknowledged, the responder has taken every packet of that operation and of all earlier ones (`Connection.CompletionMeansDelivery`). `Connection.AckRetiresIff` says exactly which operations an acknowledgement retires; beyond the half space that includes operations of which nothing was taken.
- **Delivered means acknowledged and retired.** Once every packet up to the last one of a SEND or WRITE has been taken over the lossy channel, an ACK for it has been sent, and that ACK retires the work request at the sender, unless it was an immediate without a receive entry (`Acknowledgements.DeliveredIsAcked`, `Acknowledgements.DeliveredIsRetired`). Which reply any request draws in any state is a table (`ReplyRules.SendReply`, `ReplyRules.WriteReply`, `ReplyRules.ReadReply`), and a request not taken draws exactly one refusal (`ReplyRules.RefusedUnlessTaken`).
- **Refusals at the sender.** Which operations a NAK for packet k concerns, over true packet numbers, and what it does and reports (`ReliabilityRules.NakHitsIff`, `ReliabilityRules.NakReport`); a SEND to a peer that never posts a buffer is sent again exactly `rnr_retry_count` times and then fails (`UnreadyPeer.UnreadySendFails`).
- **End to end.** SEND fills the receive list with exactly the message, if and only if it fits; WRITE changes exactly the addressed bytes; READ returns the remote bytes, whatever they are, if and only if all its responses arrive in order and once each (`SendEndToEnd.SendCompletesIffItFits`, `WriteEndToEnd.WriteDelivered`, `ReadEndToEnd.ReadRoundTrip`, `LossyRead.LossyReadIff`).
- **Memory protection over runs.** Every byte a WRITE packet changes is, at that moment, inside a region registered for remote writing in the queue pair's own protection domain (`WriteEndToEnd.WritesStayInRegions`).
- **Each operation settles once.** Over every run it is waiting, completed once or failed, never two of these (`ReliabilityRuns.CompletedAtMostOnce`).
- **CRC.** The table-driven CRC-32C is the bit-serial one, which is polynomial division by the Castagnoli polynomial over GF(2), and any error burst of up to 32 bits in the protected bytes changes it (`Crc.Calculate`, `CrcPolynomial.CrcIsRemainder`, `Crc.BurstDetected`). These are results about the check itself: the engine parses arriving packets without calling it (src/rocev2/engine.cpp:361-369).
- **Data path.** Every call that does work takes the oldest receive descriptors and keeps the n-th completion offered on either side matched to the n-th descriptor taken, in both storage modes; a call that does none breaks the match exactly when it had already taken a transmit descriptor (`LoopbackQueue.QueuePair.ProcessOnce`).

Modules follow the components: `Common`, `Bits`, `RoceTypes`, `Crc`, `CrcPolynomial`, `RocePacket`, `WireLayout` (the bytes of a packet in numbers), `HostMemory`, `MemoryRegions`, `Sgl`, `RoceQueuePair`, `SendRecv`, `RdmaWrite`, `RdmaRead`, `Transport` (one arriving packet, and runs of them), `ReplyRules` (what each arrival draws), `PacketFields`, `SendEndToEnd`, `WriteEndToEnd`, `ReadEndToEnd`, `LossyRead`, `Reliability`, `ReliabilityRuns`, `ReliabilityRules`, `Connection` (sender and responder together), `LossyDelivery` (whole messages over the channel), `Acknowledgements`, `UnreadyPeer`, `Engine`, `Dcqcn`, `DcqcnRules`, `Segmentation`, `Rings`, `DataPath`, `DataPathRules`, `HostRings` (a receive ring in the memory it is delivered to), `LoopbackQueue`, `Scheduler`, `Interrupts`, `InterruptRules`, `Sriov`, `Checksum`, `Rss`.

`dafny verify dfyconfig.toml` checks the whole project.

## Where the code falls short of a natural expectation

Each of these is kept as the code has it, and stated as a result.

- The 32-bit packet count wraps when `length + mtu - 1` reaches 2^32, and then no packet is produced at all (`RoceTypes.PacketCountExact`).
- The region check adds in 64-bit arithmetic. It means containment and permission except for exactly those permitted accesses whose range wraps past 2^64 back into the region (`MemoryRegions.BoundsCheckExact`, with one such access in `MemoryRegions.WrappingAccessAccepted`).
- A builder for an immediate opcode that was given no immediate produces a packet that does not parse back (`RocePacket.CodecRoundTrip`, an equivalence).
- READ responses draw PSNs from the responder's send counter while the requester's receive counter never follows. After any run of arrivals, a SEND from that responder completes if and only if the run sent a multiple of 2^24 responses and the message fits; otherwise every packet of it is ignored (`ReadEndToEnd.SendAfterReadsIff`; one READ is enough, `ReadEndToEnd.OneReadBreaksStep`).
- The requester does not check the PSNs of READ responses. It fills its list with whatever arrives up to the first last response and reports Success for that many bytes. The READ is right for every remote contents if and only if the responses up to the first copy of the last one arrived in order and once each (`LossyRead.LossyReadIff`). A lost response yields a short Success (`ReadEndToEnd.LostResponseStillSucceeds`), and one lost behind a repeated one a Success of full length over wrong bytes (`LossyRead.RepeatHidesLoss`).
- An acknowledgement compares PSNs by half space, and posting has no window. An operation whose last packet is more than 2^23 ahead of the packet acknowledged, within 2^24, is retired as a success although it was never taken (`Connection.AckRetiresIff`): a SEND of 0x8000_0001 bytes at an MTU of 256 is retired by the ACK of a one-packet SEND before it (`Connection.LongMessageRetiredUntaken`).
- A WRITE with immediate that finds no receive entry is stored, moves the receive PSN on and is answered with a not-ready NAK; every repeat is then refused for its PSN, so its completion is lost for good (`WriteEndToEnd.ImmediateReportedIff`, `WriteEndToEnd.StarvedImmediateIsLost`), while a later cumulative ACK retires it at the sender as a success (`Connection.LateAckCompletes`).
- The engine hands the length of each time step, not the time, to the timeout check. The retries of an operation then take at least their summed timeouts at every moment of a run if and only if no check is handed a step shorter than the one that last fired, whose wrapped difference reaches the timeout before its time (`ReliabilityRuns.ElapsedChecksBackOffIff`); steps that never get shorter are safe (`ReliabilityRuns.GrowingStepsBackOff`), and steps of 4096 and 1 microseconds retry twice in 4097 (`ReliabilityRuns.ShortStepRetriesEarly`). `ReliabilityRuns.RetriesBounded` is stated for a clock that does not run backwards.
- An invalid-request, access or operation error NAK ends only an operation that begins with the packet it names, but is always reported as fatal. An operation refused at a later packet is thus reported and keeps waiting (`ReliabilityRules.NakHitsIff`, `ReliabilityRules.NakReport`), and the completion that reports it carries no work request identifier (`Engine.RdmaEngine.ProcessAckPacket`). A not-ready NAK is likewise counted only for the first or last packet.
- Backoff doubles exactly if and only if the product stays below 2^64 (`ReliabilityRuns.BackoffDoublesExactly`).
- Rate recovery reaches the initial rate if and only if the truncated increment is at least one or the target is already there (`Dcqcn.RecoversIffIncrement`).
- The engine reports every congestion notification with time zero. Past the first alpha period none counts as recent, and the congestion estimate never rises again (`Dcqcn.EngineNeverRaisesAlpha`; when a time step raises it at all is `Dcqcn.AlphaRisesIff`).
- The two Internet checksum routines agree on every buffer of n bytes if and only if n is at most 131074 (`Checksum.ChecksumsAgreeUpTo`).
- A transmit completion reports Success for a packet that was not sent if and only if the last receive buffer taken was too small or failed its checksum; a buffer that cannot be written makes it Fault (`DataPath.StatusMeaning`, with one such descriptor in `DataPath.FalseSuccess`). The packet is counted as sent exactly when every buffer took its segment (`DataPath.SentExactlyWhenDelivered`).

## Model

| member | source | states |
|---|---|---|
| `RoceTypes.PacketCountExact` | src/rocev2/send_recv.cpp:357-365 | the computed packet count is the ceiling quotient (one for an empty message) if and only if the 32-bit sum does not wrap, and is zero when it wraps |
| `RoceQueuePair.AdvanceTwice` | include/nic/rocev2/types.h:108-111 | advancing a PSN by a and then b is advancing it by a + b, across the 24-bit wrap |
| `RoceQueuePair.AdvanceInjective` | include/nic/rocev2/types.h:108-111 | two advances from the same PSN that differ by less than 2^24 meet only if they are equal |
| `RoceQueuePair.RdmaQueuePair.Modify` | src/rocev2/queue_pair.cpp:12-46 | applies every given parameter, PSNs masked to 24 bits, or none of them when the state transition is not permitted |
| `RoceQueuePair.RdmaQueuePair.PostRecv` | src/rocev2/queue_pair.cpp:61-72 | appends to the receive queue exactly when the state allows it and there is room |
| `RoceQueuePair.RdmaQueuePair.ConsumeRecv` | src/rocev2/queue_pair.cpp:86-96 | takes the oldest receive entry exactly when the state can receive and one is there |
| `RoceQueuePair.RdmaQueuePair.NextSendPsn` | src/rocev2/queue_pair.cpp:188-193 | hands out the send PSN and advances it by one, wrapping |
| `RoceQueuePair.RdmaQueuePair.AdvanceRecvPsn` | src/rocev2/queue_pair.cpp:195-198 | advances the expected receive PSN by one, wrapping |
| `RoceQueuePair.TransitionTable` | src/rocev2/queue_pair.cpp:250-279 | which changes of state are permitted: to RESET always, to the error state from all but RESET and itself, and six more |
| `RoceQueuePair.OnlyThroughInitAndRtr` | src/rocev2/queue_pair.cpp:12-46 | over any run of modifications from RESET, refused ones included: in RTS, SQD or SQErr the pair has gone through INIT and then RTR since it was last reset, in RTR through INIT |
| `Crc.TableRow` | src/rocev2/packet.cpp:14-34 | the inner loop of the table initialiser computes eight bit-serial rounds of the byte |
| `Crc.BuildTable` | src/rocev2/packet.cpp:14-34 | all 256 entries are the eight-round images of their index |
| `Crc.Calculate` | src/rocev2/packet.cpp:36-58 | table-driven CRC-32C equals the bit-at-a-time reflected-polynomial CRC for every byte string |
| `Crc.UpdateIsSerial` | src/rocev2/packet.cpp:36-39 | one table step equals feeding the byte's eight bits one by one |
| `Crc.RoundsByTable` | src/rocev2/packet.cpp:36-39 | eight rounds of any register are the table entry of its low byte XOR the rest shifted down |
| `Crc.RoundsXor` | src/rocev2/packet.cpp:14-34 | CRC rounds are linear over XOR |
| `Crc.RoundInjective` | src/rocev2/packet.cpp:14-34 | a CRC round loses no information |
| `Crc.FeedKeepsDistinct` | src/rocev2/packet.cpp:36-58 | registers that differ stay different under any common suffix |
| `Crc.BurstSeparates` | src/rocev2/packet.cpp:36-58 | different bit strings of one length of at most 32 bits take a register to different values |
| `Crc.BurstDetected` | src/rocev2/packet.cpp:41-58 | two messages that differ only inside one stretch of at most 32 bits, at any alignment, have different CRCs |
| `Crc.ByteChangeDetected` | src/rocev2/packet.cpp:41-58 | changing any single byte of any message changes its CRC |
| `CrcPolynomial.CrcIsRemainder` | src/rocev2/packet.cpp:14-58 | the complement of the check value is the remainder over GF(2) of the message polynomial, with its first 32 bits inverted and times x^32, divided by the Castagnoli polynomial, exponents written out |
| `CrcPolynomial.RemainderUnique` | src/rocev2/packet.cpp:14-58 | there is only one such remainder, so the division determines the check value |
| `CrcPolynomial.BitStreamAt` | src/rocev2/packet.cpp:36-58 | the message polynomial takes the bytes in order, each from its least significant bit |
| `RocePacket.BigEndianRoundTrip` | include/nic/rocev2/formats.h:24-66 | a field of n bytes written big-endian reads back as itself |
| `RocePacket.Put` | src/rocev2/packet.cpp:269-325 | copying a header into the buffer extends the written prefix by exactly those bytes |
| `RocePacket.Build` | src/rocev2/packet.cpp:269-325 | the buffer filled in place is the concatenation of the headers the opcode needs, the payload and the CRC |
| `RocePacket.EncodeParts` | src/rocev2/packet.cpp:173-325 | where each header, the payload and the CRC lie in the built packet |
| `RocePacket.ParseEncode` | src/rocev2/packet.cpp:331-460 | parsing a built packet recovers every BTH, RETH, AETH and immediate field and the exact payload |
| `RocePacket.CodecRoundTrip` | src/rocev2/packet.cpp:173-460 | the round trip holds if and only if an immediate opcode was given an immediate |
| `RocePacket.BuiltPacketVerifies` | src/rocev2/packet.cpp:60-77 | every built packet passes the integrity check |
| `RocePacket.CorruptByteRejected` | src/rocev2/packet.cpp:60-77 | a built packet with any one byte changed, including a CRC byte, fails the check |
| `WireLayout.WireLength` | src/rocev2/packet.cpp:269-325 | per opcode, in numbers: total length, where the payload lies, and the check value of everything before it big-endian in the last four bytes |
| `WireLayout.WireBth` | include/nic/rocev2/formats.h:13-36 | the first twelve bytes, one by one |
| `WireLayout.WireReth` | include/nic/rocev2/formats.h:38-48 | opcodes 0x06, 0x0A, 0x0B and 0x0C carry address, key and length in bytes 12 to 27 |
| `WireLayout.WireAeth` | include/nic/rocev2/formats.h:50-58 | opcodes 0x0D, 0x0F, 0x10 and 0x11 carry syndrome and message number in bytes 12 to 15 |
| `WireLayout.WireImmediate` | include/nic/rocev2/formats.h:60-66 | opcodes 0x03, 0x05, 0x09 and 0x0B carry the immediate right before the payload |
| `HostMemory.SimpleHostMemory.Read` | src/simple_host_memory.cpp:42-54 | returns the bytes exactly when the whole access is inside the buffer and not vetoed |
| `HostMemory.SimpleHostMemory.Write` | src/simple_host_memory.cpp:56-68 | lays the bytes over memory exactly when the access is allowed, and changes nothing otherwise |
| `MemoryRegions.MemoryRegionTable.RegisterMr` | src/rocev2/memory_region.cpp:12-54 | the two key maps stay consistent and change as the value-level registration says |
| `MemoryRegions.MemoryRegionTable.DeregisterMr` | src/rocev2/memory_region.cpp:56-73 | removes the region from both maps, consistently, exactly when the key is known |
| `MemoryRegions.RegisterKeepsConsistent` | src/rocev2/memory_region.cpp:12-54 | a registration uses fresh keys, keeps both maps telling the same story and leaves other regions alone |
| `MemoryRegions.RegisterRecords` | src/rocev2/memory_region.cpp:12-54 | succeeds exactly when there is room and the length is positive; then one region, with the range, domain and rights asked for, is reachable under two new keys and the rest is as before |
| `MemoryRegions.DeregisterKeepsConsistent` | src/rocev2/memory_region.cpp:56-73 | after deregistration neither map can reach the region, and all others are as before |
| `MemoryRegions.BoundsCheckExact` | src/rocev2/memory_region.cpp:145-196 | the access check equals containment and permission if and only if the access is not a permitted one that wraps back into the region |
| `MemoryRegions.WrappingAccessAccepted` | src/rocev2/memory_region.cpp:168-169 | a write of almost the whole address space to a 16-byte region passes the check |
| `Sgl.ReadFromSgl` | src/rocev2/send_recv.cpp:297-320 | gathers the bytes of the whole list in order, or nothing at all when any entry is refused |
| `Sgl.WriteToSgl` | src/rocev2/send_recv.cpp:322-355 | filling a list from a cursor in place equals the step-by-step specification, cursor and count included |
| `Sgl.WriteSglIsScatter` | src/rocev2/send_recv.cpp:322-355 | a list in range is filled byte by byte along its remaining addresses, as far as data and room go, and the cursor then marks exactly the rest |
| `Sgl.ScatterConcat` | src/rocev2/send_recv.cpp:322-355 | filling with two payloads one after the other is filling with their concatenation |
| `Sgl.ScatterReads` | src/rocev2/send_recv.cpp:322-355 | distinct addresses read back the data, and no other byte changes |
| `Sgl.RemainingStep` | src/rocev2/send_recv.cpp:322-355 | moving the cursor drops exactly the addresses just filled |
| `Sgl.GatherReads` | src/rocev2/send_recv.cpp:297-320 | gathering reads the byte at each address of the list, in fill order |
| `Sgl.FilledReadsBack` | src/rocev2/send_recv.cpp:297-355 | a list of distinct addresses filled with a message of its size reads back as that message |
| `SendRecv.SendRecvProcessor.GenerateSendPackets` | src/rocev2/send_recv.cpp:15-107 | the loop emits the encoded packets of the message with consecutive PSNs, or nothing when the list yields fewer bytes than announced |
| `SendRecv.SendRecvProcessor.PlacePayload` | src/rocev2/send_recv.cpp:206-267 | placing an accepted packet's payload equals the value-level step on memory, queue pair, message state and result |
| `SendRecv.SendRecvProcessor.ProcessRecvPacket` | src/rocev2/send_recv.cpp:110-267 | one received SEND packet changes memory, queue pair and this queue pair's message state as the step function says, and no other queue pair's state |
| `RdmaWrite.WriteProcessor.GenerateWritePackets` | src/rocev2/rdma_write.cpp:14-121 | emits the encoded packets of the message with consecutive PSNs, or nothing when the list falls short |
| `RdmaWrite.WriteProcessor.WriteToRemote` | src/rocev2/rdma_write.cpp:338-351 | writes exactly when key, domain, rights, bounds and memory allow it |
| `RdmaWrite.WriteProcessor.PlacePayload` | src/rocev2/rdma_write.cpp:231-301 | storing an accepted packet equals the value-level step, immediate handling included |
| `RdmaWrite.WriteProcessor.ProcessWritePacket` | src/rocev2/rdma_write.cpp:123-301 | one received WRITE packet changes memory, queue pair and message state as the step function says, and no other queue pair's state |
| `RdmaRead.ReadProcessor.GenerateReadRequest` | src/rocev2/rdma_read.cpp:14-67 | emits one encoded request, records the pending read and uses one PSN |
| `RdmaRead.ReadProcessor.GenerateReadResponses` | src/rocev2/rdma_read.cpp:352-428 | the loop emits the response packets of the data and takes one send PSN for each |
| `RdmaRead.ReadProcessor.ReadFromRemote` | src/rocev2/rdma_read.cpp:284-305 | returns the bytes exactly when key, domain, rights, bounds and memory allow it |
| `RdmaRead.ReadProcessor.ProcessReadRequestPacket` | src/rocev2/rdma_read.cpp:69-143 | one request changes the PSNs and answers as the step function says, errors included |
| `RdmaRead.ReadProcessor.ProcessReadResponsePacket` | src/rocev2/rdma_read.cpp:145-269 | one response fills the pending read's list as the step function says; without a pending read nothing changes |
| `PacketFields.MtuTable` | src/rocev2/queue_pair.cpp:200-216 | packet sizes per path MTU code |
| `PacketFields.SendFields` | src/rocev2/send_recv.cpp:34-107 | every field of the i-th of n SEND packets as its receiver reads it: code, addressee, PSN, padding, flags, immediate, and which stretch of the message |
| `PacketFields.WriteFields` | src/rocev2/rdma_write.cpp:33-121 | the same for WRITE packets, with address, key and whole length in the first one only |
| `PacketFields.RequestFields` | src/rocev2/rdma_read.cpp:14-67 | the same for a READ request |
| `PacketFields.ResponseFields` | src/rocev2/rdma_read.cpp:352-428 | the same for READ responses, all but the middle ones with a positive syndrome |
| `PacketFields.ReplyFields` | src/rocev2/engine.cpp:554-568 | the same for ACKs and NAKs |
| `PacketFields.AnswerAt` | src/rocev2/engine.cpp:394-488 | an arrival puts its one reply on the wire, or else its READ responses in order |
| `PacketFields.ResponseOutcome` | src/rocev2/rdma_read.cpp:145-269 | every way a READ response can fare: ignored, reported as remote or local access error, or stored, with the completion and the memory of each |
| `Transport.WrongPsnIgnored` | src/rocev2/send_recv.cpp:144-154 | a packet with any other PSN than the expected one leaves memory, receive queue, message states, PSNs and completions unchanged |
| `Transport.RecvStepFacts` | src/rocev2/send_recv.cpp:110-267 | a SEND packet moves the receive PSN by at most one; a packet not taken changes nothing unless it is refused for access; an ACK is given only for a packet taken, with its PSN |
| `Transport.WriteStepFacts` | src/rocev2/rdma_write.cpp:123-301 | the same for WRITE packets, including those that advance and then meet an empty receive queue |
| `Transport.ReadStepFacts` | src/rocev2/rdma_read.cpp:69-143 | the same for READ requests |
| `Transport.DeliverFacts` | src/rocev2/engine.cpp:394-488 | for any arriving packet: taking it needs the expected PSN and moves it by one, a packet neither taken nor spoiling its message keeps the state, ACKs name packets just taken |
| `Transport.ArrivalDecided` | src/rocev2/send_recv.cpp:136-217 | the state before decides an arrival: taken if and only if in sequence with a payload that can be stored; the only other packets that change anything are in sequence with one that cannot, with the state they leave |
| `ReplyRules.RefusedOutOfOrder` | src/rocev2/send_recv.cpp:136-154 | any request to a pair that cannot receive draws an invalid-request NAK with its own PSN; with another PSN than expected, a sequence-error NAK with the expected one |
| `ReplyRules.AllowsIff` | src/rocev2/memory_region.cpp:145-196 | a remote key is accepted exactly when it is registered, in the domain, gives the right, and its region contains the range, or the range wraps back into it |
| `ReplyRules.SendReply` | src/rocev2/send_recv.cpp:163-267 | the reply to a SEND packet in order, for every state: not ready, no message under way, another PSN of the message, no room, ACK, or none |
| `ReplyRules.WriteReply` | src/rocev2/rdma_write.cpp:172-301 | the same for a WRITE packet: no address, forbidden range, no message, cannot be stored, immediate without receive entry, ACK, or none |
| `ReplyRules.WriteFitsIff` | src/rocev2/rdma_write.cpp:231-246 | a WRITE packet in sequence is stored exactly when its own stretch is allowed and memory takes it |
| `ReplyRules.ReadReply` | src/rocev2/rdma_read.cpp:69-143 | the same for a READ request: refused with one NAK and no data, or answered with data and no NAK |
| `ReplyRules.RefusedUnlessTaken` | src/rocev2/engine.cpp:394-488 | every request not taken draws exactly one refusal and nothing else |
| `ReplyRules.AckedIff` | src/rocev2/send_recv.cpp:258-263 | a SEND or WRITE packet that is taken, other than an immediate without receive entry, is acknowledged under its own PSN if and only if it ends its message or asks for it |
| `ReplyRules.SendReported` | src/rocev2/send_recv.cpp:227-267 | a SEND is reported if and only if its last packet is taken, with the entry, bytes and immediate of the whole message |
| `ReplyRules.WriteReported` | src/rocev2/rdma_write.cpp:249-301 | a WRITE is reported if and only if its last packet is taken, brings an immediate and finds a receive entry |
| `Transport.FitsIffRoom` | src/rocev2/send_recv.cpp:206-217 | for a list in memory without faults, a SEND payload can be stored if and only if it is no longer than the room left |
| `Transport.LossyChannelSafety` | src/rocev2/send_recv.cpp:144-225 | over any run drawn from a numbered stream of fewer than 2^24 packets, with drops, repeats, reordering and region changes, the packets taken are a prefix of the stream in order and the receive PSN counts them |
| `Transport.LongStreamSafety` | src/rocev2/send_recv.cpp:144-225 | the same for a stream of any length, as long as each arrival is less than 2^24 places from the next packet due |
| `Transport.DrawnIsNearby` | src/rocev2/send_recv.cpp:144-225 | copies of a stream of fewer than 2^24 packets are always that near, so the results for any length cover it |
| `Transport.LossesAreInvisible` | src/rocev2/engine.cpp:394-488 | a run in which every packet in sequence can be stored ends in the same state as the run of the packets taken alone, with posted buffers and region changes in place |
| `Transport.EffectiveArrivals` | src/rocev2/engine.cpp:394-488 | the reduced run consists of exactly the packets taken |
| `Transport.AcksNameTakenPackets` | src/rocev2/engine.cpp:554-568 | every ACK ever sent carries the PSN of a packet that was taken |
| `Transport.AckIndex` | src/rocev2/engine.cpp:554-568 | an ACK carries the PSN of the very packet that was taken when it was sent |
| `SendEndToEnd.SendDelivered` | src/rocev2/send_recv.cpp:65-267 | for every message, MTU code and start PSN and any in-range list with room: memory is the message scattered over the list and nothing else, one Success completion with the length and the immediate, one receive entry used, and the receive PSN equals the sender's next PSN |
| `SendEndToEnd.SendCompletesIffItFits` | src/rocev2/send_recv.cpp:110-267 | that outcome happens if and only if the message fits the list; an overflowing message yields no completion |
| `SendEndToEnd.SendStreamOnWire` | src/rocev2/send_recv.cpp:65-107 | the headers the responder sees are those parsed from the bytes the sender built |
| `WriteEndToEnd.WriteDelivered` | src/rocev2/rdma_write.cpp:123-301 | a granted multi-packet WRITE changes exactly the addressed interval, to the message, and the PSNs agree afterwards; it completes at the responder once if it carries an immediate that finds a receive entry, and not otherwise |
| `WriteEndToEnd.ImmediateReportedIff` | src/rocev2/rdma_write.cpp:249-290 | a granted WRITE with immediate earns its completion if and only if a receive entry is there; without one bytes and PSN still end as delivered, and the last packet is answered with a not-ready NAK |
| `WriteEndToEnd.RepeatsIgnored` | src/rocev2/rdma_write.cpp:157-170 | packets of a stream that has gone by change nothing any more, whatever was posted since |
| `WriteEndToEnd.StarvedImmediateIsLost` | src/rocev2/rdma_write.cpp:249-290 | an immediate that found no receive entry stays unreported: repeats with buffers posted change nothing |
| `WriteEndToEnd.WriteStreamOnWire` | src/rocev2/rdma_write.cpp:60-121 | the headers the responder sees are those parsed from the bytes the sender built |
| `WriteEndToEnd.RemoteWriteInsideRegion` | src/rocev2/rdma_write.cpp:338-351 | every byte changed by a remote write lies in a region registered for remote writing in the given domain |
| `WriteEndToEnd.WritePacketFrame` | src/rocev2/rdma_write.cpp:123-301 | the same for one WRITE packet, in the queue pair's own domain |
| `WriteEndToEnd.RunKeeps` | src/rocev2/memory_region.cpp:12-73 | any run of packets, registrations and deregistrations keeps the key maps consistent, memory's size and the queue pair's domain and state |
| `WriteEndToEnd.WritesStayInRegions` | src/rocev2/rdma_write.cpp:123-301 | at any point of any such run, each byte a WRITE packet changes lies in a region then registered for remote writing in the queue pair's domain |
| `ReadEndToEnd.RequestAnswered` | src/rocev2/rdma_read.cpp:69-143 | a granted request is answered with the response packets of the remote bytes as they are at that moment |
| `ReadEndToEnd.ReadRoundTrip` | src/rocev2/rdma_read.cpp:69-269 | request, responses in order, and the local list ends up equal to the remote bytes, with one Success completion of the full length, for every length and MTU including zero |
| `ReadEndToEnd.ResponsesOnWire` | src/rocev2/rdma_read.cpp:352-428 | the headers the requester sees are those parsed from the bytes the responder built |
| `ReadEndToEnd.ReadTakesWhatArrives` | src/rocev2/rdma_read.cpp:145-269 | whatever good responses arrive, in whatever order, the list holds their payloads in order of arrival up to the first last one, which earns a Success completion for that many bytes; overflow ends the READ without one |
| `LossyRead.LossyReadIff` | src/rocev2/rdma_read.cpp:145-269 | for the responses that arrive, by number: Success of full length and the right bytes, for every remote contents, if and only if those up to the first copy of the last one are all of them in order, once each |
| `LossyRead.RepeatHidesLoss` | src/rocev2/rdma_read.cpp:204-269 | the first response twice and the second lost: Success of full length, with the first slice in place of the second |
| `ReadEndToEnd.LostResponseStillSucceeds` | src/rocev2/rdma_read.cpp:204-269 | losing any response but the last still yields Success, short by its bytes, with the later bytes moved up |
| `ReadEndToEnd.RunUsesSendNumbers` | src/rocev2/rdma_read.cpp:400-420 | over any run of arrivals the send PSN advances by exactly the responses sent |
| `ReadEndToEnd.SendAfterReadsIff` | src/rocev2/rdma_read.cpp:400-420 | after any run of arrivals a SEND of the responder completes at its peer if and only if the run sent a multiple of 2^24 responses and the message fits; otherwise every packet of it leaves the peer unchanged |
| `ReadEndToEnd.OneReadBreaksStep` | src/rocev2/rdma_read.cpp:400-420 | one granted READ of any length puts the responder's next SEND out of step |
| `Reliability.HalfSpaceIsOrder` | src/rocev2/congestion.cpp:423-444 | comparing 24-bit numbers by half space is comparing the true sequence numbers while they are within 2^23 of each other |
| `Reliability.HalfSpaceIsSharp` | src/rocev2/congestion.cpp:423-444 | at distance 2^23 ahead and 2^23 + 1 behind the comparison gives the wrong answer |
| `Reliability.ReliabilityManager.AddPending` | src/rocev2/congestion.cpp:215-233 | appends one waiting operation to the queue pair's list |
| `Reliability.ReliabilityManager.ProcessAck` | src/rocev2/congestion.cpp:235-259 | reports exactly the waiting operations the ACK covers, in posting order, and keeps the other waiting ones |
| `Reliability.ReliabilityManager.CompleteUpTo` | src/rocev2/congestion.cpp:423-444 | the marking loop unmarks exactly the covered waiting operations |
| `Reliability.ReliabilityManager.ProcessNak` | src/rocev2/congestion.cpp:261-360 | retry counts and failures change as the step function says; a retryable NAK is fatal exactly when some hit operation has no retry of its kind left, a refusal always, and a retransmission is asked for exactly when the code's rule says so |
| `Reliability.ReliabilityManager.CheckTimeouts` | src/rocev2/congestion.cpp:362-395 | operations past their timeout are rescheduled or failed, and exactly the rescheduled PSNs are returned |
| `ReliabilityRules.NakHitsIff` | src/rocev2/congestion.cpp:261-360 | for an operation covering packets a to b: a sequence error for packet k concerns it if and only if a <= k <= b, a not-ready NAK if and only if k is a or b, a refusal if and only if k is a, any other syndrome never |
| `ReliabilityRules.NakEffect` | src/rocev2/congestion.cpp:275-356 | what each of them does to the operation: one retry counted up to the limit of its kind, immediate resend, or failure |
| `ReliabilityRules.NakReport` | src/rocev2/congestion.cpp:275-356 | the status reported per syndrome, and when a not-ready NAK asks for retransmission, over a whole list of operations |
| `ReliabilityRules.NotReadyCounts` | src/rocev2/congestion.cpp:305-328 | n not-ready NAKs for packet k count n times against the operations that start or end with it, and against no other |
| `ReliabilityRules.RetriesThenFails` | src/rocev2/congestion.cpp:305-328 | such an operation is sent again rnr_retry_count times; the next NAK reports RnrRetryExceededError and ends the waiting |
| `ReliabilityRules.WrIdsAt` | src/rocev2/congestion.cpp:423-444 | the identifiers reported are those of the completed operations, one each and in order |
| `ReliabilityRules.RetransmittedExactly` | src/rocev2/congestion.cpp:362-395 | a timeout check returns exactly the first PSNs of the operations that count one retry more and still wait, in order |
| `ReliabilityRules.TimeoutEffect` | src/rocev2/congestion.cpp:376-391 | a check acts on an operation if and only if it waits and the 64-bit time since it was sent has reached the doubled timeout |
| `UnreadyPeer.RecordedCovers` | src/rocev2/engine.cpp:301-307 | the entry recorded for a posting covers exactly its packets, which are always fewer than 2^24 |
| `UnreadyPeer.UnreadyReply` | src/rocev2/send_recv.cpp:163-176 | the first packet of a SEND at a peer without a receive buffer draws one RNR NAK and changes nothing |
| `UnreadyPeer.UnreadySendFails` | src/rocev2/congestion.cpp:305-328 | the whole exchange with such a peer: sent again rnr_retry_count times, then reported as RnrRetryExceededError |
| `ReliabilityRuns.AckFollowsManager` | src/rocev2/congestion.cpp:235-259 | the list with history changes on an ACK exactly as the manager's list does |
| `ReliabilityRuns.NakAndTickFollowManager` | src/rocev2/congestion.cpp:261-395 | the same for NAKs and timeout checks |
| `ReliabilityRuns.EachOperationSettlesOnce` | src/rocev2/congestion.cpp:215-395 | over every run the waiting, completed and failed operations together are exactly the posted ones, each once |
| `ReliabilityRuns.CompletedAtMostOnce` | src/rocev2/congestion.cpp:215-395 | each posting number occurs exactly once in the three lists together |
| `ReliabilityRuns.AckCompletesCovered` | src/rocev2/congestion.cpp:235-259 | inside the 2^23 window an ACK completes exactly the waiting operations whose unbounded last number is at most the ACK's |
| `ReliabilityRuns.AckKeepsOrder` | src/rocev2/congestion.cpp:235-259 | completions and survivors both stay in posting order |
| `ReliabilityRuns.RetriesBounded` | src/rocev2/congestion.cpp:261-395 | in every reachable state a waiting operation's retry count is at most the larger limit, it was rescheduled by timeout at most max_retries times, and without NAKs its k retries took at least the summed timeouts |
| `ReliabilityRuns.BackoffDoublesExactly` | src/rocev2/congestion.cpp:408-421 | the summed timeouts of k retries are ack_timeout * (2^k - 1) if and only if the last product fits 64 bits |
| `ReliabilityRuns.BackoffAttained` | src/rocev2/congestion.cpp:362-421 | that bound is reached by checking at each deadline |
| `ReliabilityRuns.CheckKeepsBackoffIff` | src/rocev2/congestion.cpp:376-391 | one check keeps the retries within the time that passed if and only if it does not fire early on a wrapped difference |
| `ReliabilityRuns.StepsCheckEach` | src/rocev2/engine.cpp:618-623 | the engine's time steps check every pending operation on its own, so that the next results hold for each |
| `ReliabilityRuns.ElapsedChecksBackOffIff` | src/rocev2/engine.cpp:609-624 | over any sequence of step lengths, the retries take at least their summed timeouts at every moment if and only if no check fires early |
| `ReliabilityRuns.GrowingStepsBackOff` | src/rocev2/engine.cpp:609-624 | steps that never get shorter keep the bound |
| `ReliabilityRuns.ShortStepRetriesEarly` | src/rocev2/engine.cpp:609-624 | with a timeout of 4096, steps of 4096 and 1 make two retries in 4097 microseconds, against the 12288 of two backoffs |
| `Connection.StreamNumbered` | src/rocev2/engine.cpp:250-324 | everything a sender posts, parsed from the wire, is one stream numbered from its first PSN |
| `Connection.AckIsForTakenPacket` | src/rocev2/engine.cpp:554-568 | over a connection of any length, every ACK names the packet of the stream that the responder took just then |
| `Connection.AckRetiresIff` | src/rocev2/congestion.cpp:423-444 | exactly which operations an ACK for packet k retires, over the true packet numbers: those ending at or behind k within the half space, and those so far ahead that the difference wraps |
| `Connection.CompletionMeansDelivery` | src/rocev2/engine.cpp:505-520 | over any lossy run of any length, an ACK that retires an operation ending at most 2^23 ahead of the packet acknowledged proves that all packets up to that operation's last have been taken, in order |
| `Connection.LongMessageRetiredUntaken` | src/rocev2/engine.cpp:505-520 | outside the half space: the ACK of a one-packet SEND retires a SEND of 0x8000_0001 bytes behind it, of which nothing was taken |
| `Connection.LateAckCompletes` | src/rocev2/engine.cpp:505-520 | an ACK for the operation's last packet or a later one, within the half space, retires it |
| `Acknowledgements.TakenIsReplied` | src/rocev2/engine.cpp:394-488 | over the lossy channel, the reply that in-order delivery gives to a packet is sent when that packet is taken |
| `Acknowledgements.LastIsAcked` | src/rocev2/send_recv.cpp:258-263 | a SEND or WRITE that can be served is acknowledged under the PSN of its last packet |
| `Acknowledgements.DeliveredIsAcked` | src/rocev2/send_recv.cpp:258-263 | over the lossy channel, among any sequence of postings: once every packet up to the last one of a SEND or WRITE has been taken, an ACK for that packet has been sent |
| `Acknowledgements.CompletedIsReported` | src/rocev2/congestion.cpp:235-259 | an operation an ACK completes is reported and no longer kept |
| `Acknowledgements.DeliveredIsRetired` | src/rocev2/congestion.cpp:235-259 | that ACK, handed to the sender, reports the work request completed and takes it off the pending list |
| `LossyDelivery.TakenWithMore` | src/rocev2/engine.cpp:394-488 | a packet that is taken does the same, answers included, with more receive entries posted and more regions registered |
| `LossyDelivery.LossyRunIsPrefix` | src/rocev2/engine.cpp:394-488 | for any stream, of any length, that in-order delivery takes in full: at every moment of a lossy run, with receive entries posted and regions registered in between, the responder is exactly where a prefix of it, delivered in order, would put it, and has sent exactly the READ responses of that prefix |
| `LossyDelivery.LossyRunCompletes` | src/rocev2/engine.cpp:394-488 | once every packet has been taken, the run has ended, and answered, as loss-free delivery would |
| `LossyDelivery.CaughtUp` | src/rocev2/send_recv.cpp:144-225 | within 2^24 packets the receive PSN tells that every packet has been taken |
| `LossyDelivery.NextPacketIsTaken` | src/rocev2/send_recv.cpp:144-225 | the next packet due is always taken when it arrives, so repeating makes progress |
| `LossyDelivery.PostingServed` | src/rocev2/engine.cpp:425-488 | a SEND with room, a granted WRITE or a granted READ is taken packet by packet, in order has exactly its effect, and a READ, and only a READ, draws the responses of the remote bytes at that moment |
| `LossyDelivery.PostingSurvivesLossyChannel` | src/rocev2/engine.cpp:425-488 | one such posting over the lossy channel has exactly its effect and its responses, once, when all its packets have been taken |
| `LossyDelivery.PostingsSurviveLossyChannel` | src/rocev2/engine.cpp:250-324 | the same for any sequence of postings of any total length, each on the state the earlier ones left |
| `Engine.RdmaEngine.QueueBuilt` | src/rocev2/engine.cpp:576-585 | appends the encoded packets to the outgoing queue in order |
| `Engine.RdmaEngine.Respond` | src/rocev2/engine.cpp:554-574 | queues one encoded ACK or NAK exactly when the step asks for it |
| `Engine.RdmaEngine.ProcessRequest` | src/rocev2/engine.cpp:394-488 | an arriving SEND, WRITE or READ request changes engine, queue pair, memory and completion queue as the transport step says, queues exactly its answers, and touches no other completion queue and no other queue pair's message state |
| `Engine.RdmaEngine.RetireAcknowledged` | src/rocev2/engine.cpp:511-520 | posts one completion per operation the ACK covers, in order, and drops them from the pending list |
| `PacketFields.RetiredAt` | src/rocev2/engine.cpp:511-520 | one Success completion per retired work request, in order, all reported as SENDs of no bytes |
| `Engine.RdmaEngine.ProcessAckPacket` | src/rocev2/engine.cpp:505-546 | an ACK retires what it covers; a NAK changes retry counts, and posts exactly one error completion and enters the error state, where permitted, exactly when it is fatal |
| `Engine.RdmaEngine.PostSend` | src/rocev2/engine.cpp:250-324 | queues the operation's packets, advances the PSN past exactly them, records the exact PSN range as pending and a READ as outstanding, or changes none of this when nothing could be sent |
| `Engine.RdmaEngine.GeneratePackets` | src/rocev2/engine.cpp:268-300 | picks the generator by opcode, yields the encoded packets of a well-formed request, and records a READ, and only a READ, as outstanding |
| `Engine.RdmaEngine.ProcessCnpPacket` | src/rocev2/engine.cpp:548-552 | cuts that queue pair's rate as a notification of time zero would, and leaves other flows alone |
| `Engine.RdmaEngine.AdvanceTime` | src/rocev2/engine.cpp:609-624 | one time step moves the congestion clock and runs every flow's timers, and checks the pending list of every queue pair once against the length of the step |
| `Dcqcn.CongestionControlManager.HandleCnp` | src/rocev2/congestion.cpp:63-84 | a notification cuts that flow's rate and leaves the other flows alone |
| `Dcqcn.CongestionControlManager.GetCurrentRate` | src/rocev2/congestion.cpp:86-94 | the rate lies between the minimum and the initial rate, and is the initial rate for an unknown flow |
| `Dcqcn.CongestionControlManager.AdvanceTime` | src/rocev2/congestion.cpp:96-123 | every flow's two timers run exactly once, and the set of flows stays |
| `Dcqcn.CnpKeepsOk` | src/rocev2/congestion.cpp:155-165 | a rate cut keeps the ordering of the rates and never raises the rate |
| `Dcqcn.RecoverKeepsOk` | src/rocev2/congestion.cpp:167-193 | a recovery step keeps the ordering and never lowers the rate |
| `Dcqcn.RatesStayOrdered` | src/rocev2/congestion.cpp:63-205 | in every reachable state min <= current <= target <= initial and alpha lies in [0, 1], for a configuration with min <= initial and no other |
| `Dcqcn.TargetClimbs` | src/rocev2/congestion.cpp:167-193 | n recovery steps raise the target by n increments, capped at the initial rate |
| `Dcqcn.GapHalves` | src/rocev2/congestion.cpp:167-193 | with the target at the initial rate a gap below 2^b closes within b steps |
| `Dcqcn.RecoveryReachesInitial` | src/rocev2/congestion.cpp:167-193 | without notifications the rate is exactly the initial rate after k + b steps and from then on |
| `Dcqcn.RecoversIffIncrement` | src/rocev2/congestion.cpp:167-193 | a recovering flow ever reaches the initial rate if and only if the increment is at least one or the target is already there |
| `Dcqcn.TimedIsRecovered` | src/rocev2/congestion.cpp:96-123 | over time steps at least a rate period apart the rates are those after as many recovery steps |
| `Dcqcn.RecoversInTime` | src/rocev2/congestion.cpp:96-123 | an undisturbed flow is at exactly the initial rate after k + b such time steps and from then on |
| `Dcqcn.AlphaRisesIff` | src/rocev2/congestion.cpp:112-121 | a time step raises the congestion estimate if and only if its timer is due, the last notification is recent, the gain is positive and the estimate is below one |
| `Dcqcn.EngineNeverRaisesAlpha` | src/rocev2/engine.cpp:548-552 | with notifications of time zero and a clock past one alpha period, the estimate never rises over any run |
| `DcqcnRules.CutSize` | src/rocev2/congestion.cpp:155-165 | the new rate r is the minimum or satisfies 2r <= current * (2 - alpha) < 2(r + 1), and is at least half the old one; everything else the notification sets |
| `DcqcnRules.FirstCut` | src/rocev2/congestion.cpp:139-165 | the first notification on a new flow leaves half the initial rate, or the minimum |
| `DcqcnRules.RepeatedCuts` | src/rocev2/congestion.cpp:155-165 | while the estimate is 1, n notifications divide the rate by 2^n, down to the minimum |
| `DcqcnRules.RecoveryStep` | src/rocev2/congestion.cpp:167-193 | a recovery step raises the target by the truncated increment, halves the distance to it rounding down, and ends recovery exactly at the initial rate |
| `DcqcnRules.TimeStep` | src/rocev2/congestion.cpp:96-123 | each timer acts exactly when its period is over; the estimate then moves towards 1 or 0 by the gain |
| `DcqcnRules.AlphaDecays` | src/rocev2/congestion.cpp:195-205 | without notifications n updates leave alpha * (1 - gain)^n |
| `Segmentation.BuildSegments` | src/queue_pair.cpp:212-278 | the cutting loop and its checks yield exactly the specified segments or drop code |
| `Segmentation.DroppedIffLimitBroken` | src/queue_pair.cpp:225-275 | the packet is dropped whole if and only if segmentation is on and an MSS, header or 64-segment limit is broken, with the code telling which |
| `Segmentation.SegmentsRebuildPacket` | src/queue_pair.cpp:245-277 | segments each start with the header, all but the last carry exactly MSS bytes, their payloads join to the packet's payload, and their total is the packet plus one header per extra segment |
| `Segmentation.ChunkCountLeast` | include/nic/offload.h:14-17 | the number of segments is the ceiling quotient, and exceeds a limit exactly when the payload exceeds that many MSS |
| `Rings.SlotsApart` | src/descriptor_ring.cpp:124-139 | slots of one ring never overlap, even where 64-bit addresses wrap |
| `Rings.WriteAppends` | src/descriptor_ring.cpp:60-76 | writing the producer slot appends to the queue and disturbs no queued descriptor |
| `Rings.ForeignWriteKeepsQueue` | src/descriptor_ring.cpp:85-115 | a host write outside the slots leaves a host-backed ring's queue unchanged |
| `Rings.DescriptorRing.PushDescriptor` | src/descriptor_ring.cpp:48-83 | appends to the FIFO exactly when the size is right, there is room and memory accepts it, in both storage modes; else nothing changes |
| `Rings.DescriptorRing.PopDescriptor` | src/descriptor_ring.cpp:85-115 | takes the head of the FIFO exactly when the size is right, one is there and memory gives it out; else nothing changes |
| `Rings.DescriptorRing.Reset` | src/descriptor_ring.cpp:117-122 | empties the FIFO |
| `Rings.CompletionQueue.PostCompletion` | src/completion_queue.cpp:30-42 | appends exactly when there is room; over the whole life the accepted entries are the polled ones followed by the queued ones |
| `Rings.CompletionQueue.PollCompletion` | src/completion_queue.cpp:44-53 | takes the oldest entry, keeping the same account |
| `DataPath.AdvanceExact` | src/queue_pair.cpp:385-460 | one segment goes through exactly when its buffer is large enough, reachable and passes any checksum; its completion carries the descriptor's index and is Success only then; the buffer then holds the segment |
| `DataPath.DeliversIff` | src/queue_pair.cpp:334-365 | a delivery goes through if and only if every buffer takes its segment, and then each receive descriptor has one Success completion with its index |
| `DataPath.DeliveredContents` | src/queue_pair.cpp:334-365 | disjoint buffers hold their segments afterwards and every other byte is as before |
| `DataPath.DeliveredBytes` | src/queue_pair.cpp:455-459 | without VLAN tags the received bytes are the total of the segments |
| `DataPath.WantedExact` | src/queue_pair.cpp:96-118 | which descriptors yield segments, and how many bytes they total |
| `DataPath.StopReason` | src/queue_pair.cpp:397-447 | a delivery that stops at a buffer: Fault if and only if it is large enough and cannot be written, otherwise Success; the segments before it are delivered, and its own completion is not Success |
| `DataPath.SentExactlyWhenDelivered` | src/queue_pair.cpp:67-119 | for the receive descriptors a call takes, however few: counted as sent if and only if the packet is acceptable, enough receive descriptors are there and every buffer takes its segment; then counters, completions and memory are as promised, with rx_bytes = packet + (k - 1) * header |
| `DataPath.StatusMeaning` | src/queue_pair.cpp:67-119 | what the transmit status tells: NoDescriptor, Fault, and a Success not counted as sent, each with its exact cause |
| `DataPath.FalseSuccess` | src/queue_pair.cpp:397-414 | a two-byte packet and a one-byte buffer: Success, and nothing delivered |
| `DataPathRules.VlanBytes` | src/queue_pair.cpp:347-395 | what a receive buffer is given for every combination of inserting and stripping; an inserted header that is stripped is never seen |
| `DataPathRules.RxCompletion` | src/queue_pair.cpp:385-460 | every field of the receive completion, and the memory, for each way a segment can fare |
| `DataPathRules.RefusalTable` | src/queue_pair.cpp:85-118 | a descriptor is refused whole exactly for these causes, in this order, each with its own status, and then nothing is delivered or counted |
| `DataPathRules.TxCompletion` | src/queue_pair.cpp:160-177 | every field of the transmit completion of a descriptor that is not refused |
| `DataPathRules.BytesCounted` | src/queue_pair.cpp:455-459 | however a delivery ends, the bytes counted as received are those of the buffers counted as delivered, VLAN headers included |
| `HostRings.ClearRingAdvances` | src/descriptor_ring.cpp:85-115 | a receive ring in host memory whose queued descriptors point clear of it: the descriptors a delivery takes are the oldest ones, and the rest stays queued, although segments are written to the same memory in between |
| `HostRings.HostRingMoves` | src/queue_pair.cpp:334-365 | the same for a whole transmit descriptor, down to the memory it leaves behind |
| `LoopbackQueue.QueuePair.StoreSegment` | src/queue_pair.cpp:385-453 | memory, receive completion and failure code of one segment are those of the specification |
| `LoopbackQueue.QueuePair.HandleRxSegment` | src/queue_pair.cpp:385-460 | with those, the completions offered on both sides and the counters |
| `LoopbackQueue.QueuePair.FinalizeTxSuccess` | src/queue_pair.cpp:280-301 | offers one Success completion with the segment count and adds the packet to the transmit counters |
| `LoopbackQueue.QueuePair.DeliverNext` | src/queue_pair.cpp:334-365 | one more receive descriptor off the ring and the next segment through it keep the delivery as specified, or end it as specified |
| `LoopbackQueue.QueuePair.DeliverSegments` | src/queue_pair.cpp:334-365 | the loop over the segments takes one receive descriptor each, in ring order, and stops at the first that does not take its segment, with one completion per descriptor taken |
| `LoopbackQueue.QueuePair.ProcessSegments` | src/queue_pair.cpp:303-369 | the whole packet has the specified outcome, drops included, on exactly the receive descriptors the specification says it takes |
| `LoopbackQueue.QueuePair.ProcessOnce` | src/queue_pair.cpp:67-119 | work done removes the oldest transmit descriptor, takes the oldest receive descriptors and leaves exactly the rest queued (for a ring in host memory, if its descriptors point clear of it), offers one transmit completion with its index and one receive completion per receive descriptor, has the specified outcome, and keeps the n-th completion matched to the n-th descriptor; a call without work offers no transmit completion and breaks the match exactly when a transmit descriptor could be read off its ring |
| `Scheduler.QueueManager.constructor` | src/queue_manager.cpp:10-28 | zero weights become one, and the first queue starts with its full credit |
| `Scheduler.QueueManager.ProcessOnce` | src/queue_manager.cpp:54-78 | one call serves the queue the schedule names and keeps the credit within [1, weight] |
| `Scheduler.QueueManager.Reset` | src/queue_manager.cpp:80-93 | back to the first queue with full credit |
| `Scheduler.ScanShrinksWait` | src/queue_manager.cpp:54-78 | a call that serves another queue strictly shortens a ready queue's wait |
| `Scheduler.ScanServesFirst` | src/queue_manager.cpp:54-78 | a call serves the first ready queue around the ring, from its remaining credit or, if others were passed over, its full weight |
| `Scheduler.NobodyReady` | src/queue_manager.cpp:54-78 | a call serves nobody if and only if nothing is ready, and then leaves the turn where it was, with full credit |
| `Scheduler.WaitIsBounded` | src/queue_manager.cpp:54-78 | a continuously ready queue is passed over for at most the sum of the other queues' weights in calls |
| `Scheduler.BackloggedCall` | src/queue_manager.cpp:54-78 | with every queue ready a call serves the current queue |
| `Scheduler.BackloggedWaitIsExact` | src/queue_manager.cpp:54-78 | with every queue ready the wait is exactly the remaining credits ahead, so the bound is attained |
| `Scheduler.FullRoundsAreProportional` | src/queue_manager.cpp:54-93 | from reset with every queue ready, r rounds serve queue i exactly r * weight[i] times and end where they began |
| `Interrupts.InterruptDispatcher.TryFire` | src/interrupt_dispatcher.cpp:25-68 | an enabled, unmasked vector delivers its whole pending batch and retunes its threshold |
| `Interrupts.InterruptDispatcher.Complete` | src/interrupt_dispatcher.cpp:70-115 | counts a completion on its vector and fires at the threshold; refuses exactly when the vector cannot fire |
| `Interrupts.InterruptDispatcher.FlushVector` | src/interrupt_dispatcher.cpp:117-135 | fires one vector, pending or not |
| `Interrupts.InterruptDispatcher.FlushPending` | src/interrupt_dispatcher.cpp:117-135 | fires every pending vector |
| `Interrupts.InterruptDispatcher.TimerTick` | src/interrupt_dispatcher.cpp:137-156 | ages every timed vector and fires those that are due |
| `Interrupts.FireAllStep` | src/interrupt_dispatcher.cpp:117-156 | firing vectors one after another does not depend on their order |
| `Interrupts.StepBalances` | src/interrupt_dispatcher.cpp:25-156 | every operation keeps the balance per vector |
| `Interrupts.InterruptsConserved` | src/interrupt_dispatcher.cpp:25-156 | over any run of completions, flushes, ticks, mask and enable changes and remaps, per vector: delivered plus pending equals accepted plus flushes that fired empty, and timed vectors are pending |
| `Interrupts.TicksFireOnlyPending` | src/interrupt_dispatcher.cpp:137-156 | a tick delivers only vectors that had completions pending, and all of them |
| `InterruptRules.CompletionFires` | src/interrupt_dispatcher.cpp:70-115 | a completion on a live vector fires exactly when it brings the pending count to the threshold in force, and then delivers all of it; other vectors keep what they have |
| `InterruptRules.FlushFires` | src/interrupt_dispatcher.cpp:117-122 | an explicit flush delivers all that is pending on a live vector, or one interrupt if nothing is |
| `InterruptRules.FlushAllFires` | src/interrupt_dispatcher.cpp:123-133 | flushing everything empties every live vector and leaves the others pending |
| `InterruptRules.TickFires` | src/interrupt_dispatcher.cpp:137-156 | a tick fires a pending vector if and only if it is live, the timer is on and its 32-bit age has reached the timer threshold |
| `InterruptRules.ThresholdMoves` | src/interrupt_dispatcher.cpp:219-253 | when exactly the adaptive threshold goes up or down by one, as inequalities between batch totals and limits |
| `InterruptRules.PendingStaysBelow` | src/interrupt_dispatcher.cpp:25-253 | over every run that sets no threshold above a bound, adaptation included, every pending count stays below it |
| `Sriov.ResourcePool.FindFreeRange` | src/pf_vf_manager.cpp:202-240 | returns the leftmost free run of the wanted length, and fails exactly when there is none |
| `Sriov.ResourcePool.Mark` | src/pf_vf_manager.cpp:242-256 | sets exactly the given range |
| `Sriov.ResourcePool.Available` | src/pf_vf_manager.cpp:163-181 | counts the unmarked units |
| `Sriov.AllocateKeepsAccounts` | src/pf_vf_manager.cpp:183-194 | giving a free run to a new function keeps: marked if and only if reserved or owned, ranges disjoint and in bounds |
| `Sriov.ReleaseKeepsAccounts` | src/pf_vf_manager.cpp:196-200 | taking it back keeps the same, and the run is free again |
| `Sriov.FreeCountBalances` | src/pf_vf_manager.cpp:163-181 | free units are total minus reserved minus owned |
| `Sriov.PfVfManager.constructor` | src/pf_vf_manager.cpp:7-17 | only the reserved units start out marked |
| `Sriov.PfVfManager.CreateVf` | src/pf_vf_manager.cpp:19-65 | succeeds exactly when the id is new, a function is allowed and both runs exist; takes the leftmost runs; a failure changes nothing; the accounts hold after any run of calls |
| `Sriov.PfVfManager.DestroyVf` | src/pf_vf_manager.cpp:67-85 | removes exactly that function and frees its runs |
| `Sriov.PfVfManager.AvailableQueues` | src/pf_vf_manager.cpp:163-171 | total minus reserved minus owned, in every reachable state |
| `Sriov.PfVfManager.AvailableVectors` | src/pf_vf_manager.cpp:173-181 | the same for vectors |
| `Checksum.ComputeChecksum` | src/checksum.cpp:10-34 | folding carries after every word yields the complement of the one's complement sum, for every buffer |
| `Checksum.FoldSum` | src/packet_generator.cpp:354-359 | folding in the end yields the one's complement sum of the 32-bit total |
| `Checksum.SumWords` | src/packet_generator.cpp:342-353 | the accumulated total is the true word sum modulo 2^32 |
| `Checksum.InternetChecksum` | src/packet_generator.cpp:342-360 | the complement of the one's complement sum of the wrapped total |
| `Checksum.ChecksumsAgreeUpTo` | src/checksum.cpp:10-34 | the two computations agree on all buffers of n bytes if and only if n is at most 131074 |
| `Checksum.ComputeTransportChecksum` | src/packet_generator.cpp:204-305 | TCP and UDP checksums over pseudo-header and segment, with UDP's zero sent as all ones |
| `Checksum.WordSumByBytes` | src/packet_generator.cpp:342-353 | the word sum counts each byte at an even offset 256-fold and each other one once |
| `Checksum.PseudoHeaderSum` | src/packet_generator.cpp:204-305 | the pseudo-header adds the four address words, the protocol number and the length modulo 2^16 |
| `Checksum.TransportChecksumValue` | src/packet_generator.cpp:204-305 | the checksum in numbers; UDP, protocol 17, sends 0xFFFF in place of zero, other protocols send zero |
| `Checksum.InsertTransportChecksum` | src/packet_generator.cpp:158-195 | the two checksum bytes are set in place and nothing else changes |
| `Checksum.InsertIpv4Checksum` | src/packet_generator.cpp:114-119 | the header checksum is set in place and nothing else changes |
| `Checksum.InsertedChecksumVerifies` | src/packet_generator.cpp:204-305 | the sum over pseudo-header and segment with the inserted checksum folds to all ones if and only if the 32-bit total does not overflow |
| `Checksum.RealSegmentsVerify` | src/packet_generator.cpp:127-198 | so it does for every segment of at most 131062 bytes |
| `Checksum.Ipv4HeaderVerifies` | src/packet_generator.cpp:114-119 | an IPv4 header with its checksum inserted sums to all ones |
| `Rss.KeySegment` | src/rss.cpp:82-89 | the inner loop yields the cyclic 32-bit key window at a bit |
| `Rss.ToeplitzHash` | src/rss.cpp:63-94 | the nested loops compute the XOR of the key windows at the set bits, zero for an empty key |
| `Rss.ToeplitzIsLinear` | src/rss.cpp:63-94 | the hash of a XOR is the XOR of the hashes |
| `Rss.ZeroPaddingIsFree` | src/rss.cpp:63-94 | appended zero bytes never change the hash |
| `Rss.BitNumber` | src/rss.cpp:75-80 | bits are numbered from the most significant of the first byte |
| `Rss.UnitHash` | src/rss.cpp:63-94 | an input with one bit set hashes to the key window there, which with linearity fixes the hash of every input |
| `Rss.WindowNumber` | src/rss.cpp:82-89 | at a byte boundary the window is the big-endian number in the next four key bytes |
| `Rss.WindowSlides` | src/rss.cpp:82-89 | from one bit to the next the window slides by one, around the end of the key |

## Left out

- Statistics counters, logging and tracing, apart from the four traffic counters of the Ethernet queue pair.
- Address translation is the identity, and the fault injector is a pure predicate of address and length; a stateful injector is not modelled.
- Protection domains, completion-queue and queue-pair creation and destruction, completion-queue depth and overflow, and queue-pair attributes other than state, destination, MTU and PSNs.
- MemoryRegions.MemoryRegionTable.RegisterMr: keys come from an unbounded counter; the source's 32-bit counter reuses a key after 2^32 registrations and would leave a pointer to a freed region, which is not modelled.
- MemoryRegions.RegisterKeepsConsistent: fresh keys rest on the same unbounded counter.
- `RdmaQueuePair::handle_ack`, its pending list and its own timeout check: the engine does not use them to retire work.
- The READ-response branch of the engine's packet dispatch: the work itself is modelled in its manager. CNP generation rests on a fixed ECN mark.
- Pad bytes: the pad count is carried in the header as the code sets it, and no pad bytes are sent or stripped.
- Builder setters are the masked fields of a record, and the parser is a function; the CRC table is a sequence of 32-bit words as Booleans, least significant first.
- A retry shift of 64 or more is undefined in C++; the timeout is taken as the product modulo 2^64.
- DCQCN rates and times are unbounded naturals and its doubles are reals, so rounding is not modelled; the CNP generation timer and the unused notification count are left out.
- Byte order of completions between the two completion queues and interrupt firing inside the Ethernet queue pair: each queue's own order is modelled, the interleaving is not.
- Reading a descriptor struct from ring bytes is a parameter that may fail; its memory layout is not modelled.
- Doorbells, and a host-backed ring constructed without a DMA engine.
- Rings of 2^32 or more slots or larger than the address space.
- Interrupt pending counts are unbounded; their 32-bit wrap, the delivery callback and the order of deliveries inside one flush or tick are not modelled.
- Scheduler.QueueManager.ProcessOnce: each call is given which queues have work, instead of running the queue pairs, whose own processing is modelled in LoopbackQueue.
- Scheduler.QueueManager.Reset: the scheduler's own state only; the queue pairs it also resets are not objects of this module.
- Engine.RdmaEngine.AdvanceTime: a disabled engine, which does nothing anywhere, is not modelled.
- Deregistering a region while a posting is under way is outside the whole-posting results over the lossy channel; Transport.LossesAreInvisible keeps such events in place.
- RoceQueuePair.RdmaQueuePair.Modify: destination address and port are left out, since nothing modelled reads them.
- Virtual-function objects: enable, disable, reset and their state.
- RSS queue selection and default keys: an index into a table.
- Packet generation other than checksums, PTP, flow control, mailbox, admin queue, error injection, PCIe configuration space, BARs, capabilities, the register file, the device and the driver: wiring or short state toggles that would only add easy members.
