# A verified model of the EJFAT data path

EJFAT moves events from data sources to a compute farm over UDP. A sender cuts
an event into packets; a load balancer strips its own header from each packet
and picks a port; a receiver puts the packets of one event together again under
loss, reordering and interleaving; finished events pass to the user through a
ring of reused slots. This project models that path in Dafny and proves what it
guarantees, over all inputs and over whole runs.

| file | part of the system |
|---|---|
| `Headers.dfy` | the load balancer (LB) and reassembly (RE) headers as bytes, byte swapping, the in-place header setters |
| `Reassembly.dfy` | the reassembly loop as a state machine over received datagrams, and repeated calls |
| `ReassemblySafety.dfy`, `ReassemblyDelivery.dfy`, `ReassemblyDuplicates.dfy` | what a run can return; what a run must return; what duplicated packets do |
| `ReceiverStatus.dfy` | a reference receiver without flags, and that the loop's flags mean its status |
| `AllocatingReassembly.dfy` | the variant that doubles its buffer |
| `Receiver.dfy` | the receiving routines as loops over a socket writing into an array |
| `StagedReader.dfy`, `StagedMixing.dfy` | the routine that reads one large event in stages; the same on any input, with packets of others mixed in |
| `Packetizer.dfy`, `FastPacketizer.dfy`, `OldPacketizer.dfy` | the copying sender, the in-place sender, the version 1 sender |
| `LoadBalancer.dfy` | header stripping, port choice, port range |
| `EndToEnd.dfy`, `StagedSending.dfy` | round trips from sender to receiver |
| `ConsumerRing.dfy`, `ServerConsumer.dfy` | the consumer's slot rings around one bounded queue |
| `ProducerRing.dfy`, `ServerProducer.dfy` | the producer's ring and sending thread |
| `EntryPool.dfy` | the pool of entries for ticks under assembly |
| `Pacing.dfy`, `FillAverage.dfy` | rate control of a sender; running average of the queue's fill level |
| `Sets.dfy` | two facts about finite sets |

Code that loops over changing state is modelled as methods over arrays and
classes. Each is proved equal to a function of its inputs (`Run`, `RunAlloc`,
`RunStage`, `Packets`, `OldPackets`, `Step`, `Evict`, `Turn`), and the theorems
are about those functions. To verify the project, use `dafny verify dfyconfig.toml`.

How the outside is represented:

- `recvfrom` takes the next element of a sequence of outcomes (an error or the
  bytes of a datagram). `Waiting` means the sequence ended during a call.
- `send` appends to a sequence, rejects exactly the datagrams above a path
  limit, and fails for other reasons after a given number of datagrams.
- Threads are interleaved at atomic steps: writing part of a slot, pushing,
  counting, popping, uncounting with the read, sending, running a callback. The lock-free queues are
  bounded FIFO queues.
- A clock is the readings a turn of the loop takes, in whole microseconds.
- Integer widths are explicit: header fields, offsets and ports are bounded
  types or taken modulo their width.

## What the code does, where that differs from its description

- A receiver accepts an event only if it is not busy with another source and the
  event's offset-0 packet comes first, with one exception: `prevTick` starts at the
  32-bit `UINT_MAX`, so a call whose first tick is 4294967295 does not look at the
  offset. `ReassemblyDelivery.FirstPacketDecides` and `DeliveredIffAccepted` give
  the exact condition.
- Duplicated packets can make a partly received event count as complete. A call is
  right if and only if no two packets it counted share a byte
  (`ReassemblyDuplicates.CallIsRightIff`); `DuplicateIsTakenForWhole` is an input
  for which it is not. The theorems about whole sessions assume no duplicates, as
  the repository's documentation does.
- An event of no bytes is sent as one empty packet, which makes the receiver
  divide by zero (`EndToEnd.EmptyEventFaults`).
- Shrink-and-retry of a first packet ends exactly when the path carries at least
  one byte behind the headers (`Packetizer.SendingEndsIff`).
- The allocating receiver doubles its buffer only once per packet and then
  stores, so it can write out of bounds. `AllocatingReassembly.AllocatingSimulatesFixed`
  has the exact condition, `EndToEnd.LossOverruns` shows that losing packets of a
  long event is enough, and `AllocatingReassembly.InOrderOverrunsIff` that in-order
  input is safe but for a first packet with tick 4294967295 inside its event.
- A staged read looks at a packet's offset before its source and tick, so a packet of
  another source is put up with, up to 99 times, only if it happens to have the
  expected offset; any other ends the call as out of order
  (`StagedMixing.StageStoresOwn`).
- When that routine has grown the supplied buffer and then fails, the caller is left
  with a pointer to memory it no longer owns; the `released` result of
  `Receiver.GetCompleteAllocatedBuffer` says exactly when.
- `getEvent` is documented to give the event size but gives the size of the slot's
  buffer (`ServerConsumer.ServerConsumer.ReadItem`);
  `AllocatingReassembly.BufferSizeIsEventSizeIff` says when the two agree.
- `getEvent` pops a slot before it reads it, so what it hands out can be a later
  event than the one popped. `ConsumerRing.RingIsFifoFromStart` says for which runs,
  and `ConsumerRing.MisreadIff` from which states that can happen.
- The documentation warns of overwriting an event only after more than 1023 further
  calls; the exact conditions are `ConsumerRing.PoppedItemStable` and
  `ConsumerRing.OverwrittenWithoutPop`, and no further call is needed when all
  queued events are of the same source.
- `addToSendQueue` on a full queue returns false, but has by then replaced the
  contents of the item being sent (`ProducerRing.RefusedAddReplacesItemInFlight`).
- A comment in the entry pool speaks of a window of two prescales; the code uses
  four, and so does the model.
- The sending loop keeps the buffer rate asked for, up to one bunch, if and only if
  its two integer divisions have not rounded it up (`Pacing.RateIsKeptIff`). For
  average buffers above 500000 bytes the bunch size is 0 and the rate kept can be
  higher than asked for (`Pacing.OversizedExceedsRate`).

## Model

| member | source | states |
|---|---|---|
| `ReassemblySafety.DeliveriesAreSentEvents` | simulation/ejfat_assemble_ersap.hpp:840-1015 | Safety over any number of calls: on a stream that loses, reorders and mixes packets of many events and sources without duplicates, every delivery is one sent event byte for byte, with its length, tick and source, and no nonempty event is delivered twice. |
| `ReassemblySafety.CallReturnsSentEvent` | simulation/ejfat_assemble_ersap.hpp:808-1016 | The same for one call: a returned length, tick, source and buffer prefix are those of one sent event. |
| `ReassemblySafety.CountingCovers` | simulation/ejfat_assemble_ersap.hpp:972-981 | Why counting bytes suffices: non-overlapping fragments of one event whose byte count reaches its length count it exactly and cover every byte. |
| `ReassemblySafety.StepKeeps` | simulation/ejfat_assemble_ersap.hpp:871-984 | One turn of the loop keeps the invariant: the packets counted are genuine, pairwise disjoint, of one tick and source, disjoint from all still to come, and their payloads sum to `totalBytesRead`. |
| `ReassemblySafety.RunSafe` | simulation/ejfat_assemble_ersap.hpp:840-1015 | From any state that satisfies the invariant, a run returns only whole sent events, and the first byte of an event returned cannot arrive again. |
| `ReassemblyDelivery.CompleteEventIsDelivered` | simulation/ejfat_assemble_ersap.hpp:871-985 | Delivery: after any earlier input at all, of any sources, without packets of the event, an event whose packets all arrive and whose first packet the receiver accepts, with no other tick of its source in between, is the one thing more that is delivered, with its own bytes; packets of other sources may be mixed in. |
| `ReassemblyDelivery.DeliveredIffAccepted` | simulation/ejfat_assemble_ersap.hpp:871-985 | With no other source in between, the event is delivered if and only if the receiver is not busy with another source, not dumping the tick, and sees offset 0 (or already has the tick in `prevTick`); otherwise nothing more is delivered. |
| `ReassemblyDelivery.OneSourceAccepts` | simulation/ejfat_assemble_ersap.hpp:905-963 | A receiver fed by one source alone, whatever whole, partial or dumped ticks, errors and runts came before, accepts the offset-0 packet of any new tick. |
| `ReceiverStatus.StepReacts` | simulation/ejfat_assemble_ersap.hpp:840-1012 | One turn of the loop is one reaction of a reference receiver that knows no flags: fresh, dumping a tick, or busy with one event of one source; and a packet is counted as of a bad source exactly when the reference finds it foreign. |
| `ReceiverStatus.FreshCallIsWatched` | simulation/ejfat_assemble_ersap.hpp:808-1016 | A call returns what the reference returns, for all input: same answer, same packets counted, same number of bad-source packets, same input left. |
| `ReceiverStatus.AfterStands` | simulation/ejfat_assemble_ersap.hpp:808-1016 | After any input, read by as many calls as it takes, the loop's state means the status of the reference. |
| `ReceiverStatus.DeliveredIffOpen` | simulation/ejfat_assemble_ersap.hpp:871-985 | Delivery from the input alone: after any earlier input of any sources, a complete event of one source is delivered if and only if its first packet opens an event for the reference receiver as that input leaves it; otherwise nothing more is. |
| `ReceiverStatus.AbandonedThenDelivered` | simulation/ejfat_assemble_ersap.hpp:911-932 | In the middle of an event, a packet of its source with another tick and nonzero offset ends the source's hold: a complete event of any source and a third tick that follows is returned, with exactly its packets stored. |
| `ReceiverStatus.BusyFromStart` | simulation/ejfat_assemble_ersap.hpp:871-885 | A receiver busy with a source has been so since one of its packets, all of whose packets since then were of one tick, and holds exactly those. |
| `ReassemblyDelivery.SessionSplit` | simulation/ejfat_assemble_ersap.hpp:808-1016 | Repeated calls on joined input deliver what they deliver on the first part, then what they deliver on the second from the state reached. |
| `ReassemblyDelivery.CompleteIsBuilt` | simulation/ejfat_assemble_ersap.hpp:871-985 | From any state that accepts the first packet, the call reads exactly through the event's last packet, returns its length, tick and source, and stored exactly the source's packets, skipping those of other sources. |
| `ReassemblyDelivery.FirstPacketDecides` | simulation/ejfat_assemble_ersap.hpp:813-963 | A call in any state whatever completes an event from its packets in any order if and only if it accepts the first of them; otherwise, unless it already held bytes of the event, it stores none. |
| `ReassemblyDuplicates.CountingIsRightIff` | simulation/ejfat_assemble_ersap.hpp:972-981 | For fragments of one event, duplicates and all, whose byte count reaches its length: the count is exact and every byte covered if and only if no two fragments share a byte. |
| `ReassemblyDuplicates.CallIsRightIff` | staticLB/README.md:8-9 | On any stream of genuine packets, lost, reordered, mixed and duplicated in any way, a successful call returned the event's length and stored its every byte if and only if no two packets it counted share a byte; and then the buffer begins with the event. |
| `ReassemblyDuplicates.BufferIsRightIff` | simulation/README.md:102-104 | When the call abandoned nothing it had stored, that is also exactly when length and buffer are right whatever the buffer held before. |
| `ReassemblyDuplicates.DuplicateIsTakenForWhole` | staticLB/README.md:9 | An input for which they are not: a first packet holding at least half but not all of its event, received twice, makes the call report success with no byte after that packet stored. |
| `Receiver.Examine` | simulation/ejfat_assemble_ersap.hpp:871-963 | The tests on source, tick and offset, with their updates of the loop's variables, decide as the state machine does and never touch what has been stored. |
| `Receiver.GetCompletePacketizedBufferTime` | simulation/ejfat_assemble_ersap.hpp:808-1016 | The loop over a socket and an array returns what the machine's run returns, reads just that much input, and leaves in the array exactly the stored packets over the old contents. |
| `Receiver.GetCompletePacketizedBuffer` | simulation/ejfat_assemble_ersap.hpp:1001-1066 | The same, and what a call adds to the caller's statistics: accepted bytes and packets only with a delivered event, one bad-source packet per rejected one. |
| `Receiver.ReadPacket` | simulation/ejfat_assemble_ersap.hpp:848-963 | The first half of a turn takes one datagram, refuses errors and runts with the right code, and otherwise parses the packet and decides about it as the machine does. |
| `Receiver.GetCompleteAllocatedBuffer` | simulation/ejfat_assemble_ersap.hpp:1135-1388 | The allocating loop does what its machine does; on success it hands out a buffer of the final capacity with the stored packets, on failure only the pointer value and length passed in; and it says that the supplied memory was given up exactly when that memory was used and had to grow. |
| `Receiver.MakeRoom` | simulation/ejfat_assemble_ersap.hpp:1326-1340 | A buffer without room for a packet is doubled once; everything stored in it survives. |
| `Receiver.DoubleBuffer` | simulation/ejfat_assemble_ersap.hpp:1326-1340 | Growing keeps the old bytes at the front of a new buffer of twice the length. |
| `AllocatingReassembly.AllocatingSimulatesFixed` | simulation/ejfat_assemble_ersap.hpp:1202-1385 | The allocating routine writes out of bounds if and only if some packet stored by the fixed routine with ample room ends beyond twice the capacity reached by then; otherwise result, tick, source, counts, stored packets and unread input are the same and the capacity was doubled once per packet that needed it. |
| `AllocatingReassembly.AllocatingIsFixed` | simulation/ejfat_assemble_ersap.hpp:1202-1385 | Without an overrun the call equals the fixed call on any buffer of at least the final capacity, from any state. |
| `AllocatingReassembly.AllocatedReturnsSentEvent` | simulation/ejfat_assemble_ersap.hpp:1202-1385 | Safety for the allocating routine: what it returns on an honest stream is a sent event in full. |
| `AllocatingReassembly.GrowthKeepsBytes` | simulation/ejfat_assemble_ersap.hpp:1326-1340 | Storing packets and then growing equals growing first: every byte stored before a reallocation survives it. |
| `AllocatingReassembly.InOrderOverrunsIff` | simulation/ejfat_assemble_ersap.hpp:1149-1340 | In-order input with payloads up to 9000 bytes, starting anywhere in an event, overruns if and only if its first packet has data, bears tick 4294967295 and ends beyond twice the initial buffer. |
| `AllocatingReassembly.HandsOutIff` | simulation/ejfat_assemble_ersap.hpp:1149-1174 | The buffer handed out has the initial length (100000 without buffer and length, else the given length, at least 9000) if and only if nothing stored goes beyond it. |
| `AllocatingReassembly.BufferSizeIsEventSizeIff` | simpleAPI/serverConsumer.cpp:1071-1090 | For a call that stored nothing beyond its event, the buffer size handed out equals the event size if and only if the event is the initial length doubled some number of times; else it is larger. |
| `StagedReader.Examine` | simulation/ejfat_assemble_ersap.hpp:1477-1526 | The tests on offset, source and tick of a staged read decide as specified: a stored packet continues at the expected offset and fits the buffer, a rejected one only counts. |
| `StagedReader.GetPacketizedBuffer` | simulation/ejfat_assemble_ersap.hpp:1425-1536 | A staged read returns what its machine returns, fills the front of the buffer with exactly the bytes read and leaves the rest of it alone. |
| `StagedReader.StageReads` | simulation/ejfat_assemble_ersap.hpp:1451-1526 | On an in-order lossless stream a call succeeds, returns the event's bytes from the offset passed in to the offset passed out, and sets `last` if and only if that is the event's end. |
| `StagedReader.StagesMakeUpEvent` | simulation/ejfat_assemble_ersap.hpp:1451-1535 | Calls chained by their returned offset, source and tick, with buffers of at least 9000 bytes, read chunks whose concatenation is the event. |
| `StagedMixing.StageStoresOwn` | simulation/ejfat_assemble_ersap.hpp:1455-1526 | For all input: what a call has read explains its result. All it stores is the payloads of its own source and tick, in order, each at the expected offset; foreign packets are counted; it stops at the event's end or when less than 9000 bytes are free; every failure has its cause, NO_REASSEMBLY the hundredth foreign packet. |
| `StagedMixing.OthersAreRejected` | simulation/ejfat_assemble_ersap.hpp:1497-1504 | Up to 99 packets of another source or tick mixed in at the expected offset change nothing in the bytes, offset, tick, count and `last` a call returns; with the hundredth it returns NO_REASSEMBLY. |
| `StagedMixing.MixedStageReads` | simulation/ejfat_assemble_ersap.hpp:1491-1526 | An event in sequence with fewer than a hundred packets of others mixed in is read as if it came alone. |
| `Packetizer.UdpPath.Send` | simulation/ejfat_packetize.hpp:891-913 | The path: rejects exactly what exceeds its limit, otherwise appends the datagram or fails without effect. |
| `Packetizer.BuildPacket` | simulation/ejfat_packetize.hpp:872-883 | The packet buffer ends up holding the LB header (unless direct), the RE header and the chunk, in that order and nothing else. |
| `Packetizer.SendRound` | simulation/ejfat_packetize.hpp:854-935 | One round sends headers and the next chunk and moves the variables on as `Round` says: advanced, cut, or failed. |
| `Packetizer.SendPacketizedBufferSendNew` | simulation/ejfat_packetize.hpp:811-945 | Sends exactly the packets of the data under the payload limit left by the retries, in order, up to the first link failure; no later packet is rejected as too long when the first passed; result, returned offset and packet count are those of what was sent; a payload that does not fit the packet storage is an out-of-bounds store. |
| `Packetizer.PacketSizes` | simulation/ejfat_packetize.hpp:854-859 | No packet exceeds headers plus the payload limit, and for nonempty data every packet carries data. |
| `Packetizer.PacketAt` | simulation/ejfat_packetize.hpp:867-883 | Packet i in full: it carries the data from byte i times the payload limit on, its LB header parses back to version, protocol, entropy and tick of the call, its RE header to version, reserved, source, offset, full length and tick. |
| `Packetizer.PacketCount` | simulation/ejfat_packetize.hpp:854-859 | No more packets than needed: all but the last are full. |
| `Packetizer.ShrunkBound` | simulation/ejfat_packetize.hpp:899-907 | The retries leave the limit alone if and only if the first packet passes at once, and a limit that was cut is at least floor(0.8 * (usable + 1)). |
| `Packetizer.RetriesTakeFifths` | simulation/ejfat_packetize.hpp:899-907 | The loop first retries some number of times, nothing else, until the first packet passes, and each retry takes a fifth off the payload limit, up to rounding, bounded from both sides. |
| `Packetizer.SendingEndsIff` | simulation/ejfat_packetize.hpp:853-939 | For nonempty data of a first buffer the loop with its retries ends if and only if the path limit exceeds the size of the headers, and then with everything sent. |
| `Packetizer.SendForRounds` | simulation/ejfat_packetize.hpp:853-939 | The same loop cut off after any number of rounds, on any path, goes through exactly the states that statement is about. |
| `FastPacketizer.WriteHeaderInPlace` | simulation/ejfat_packetize.hpp:515-521 | Headers written just before a packet's data change those 36 bytes only, and the datagram read from there is headers followed by the untouched data. |
| `FastPacketizer.SendFirst` | simulation/ejfat_packetize.hpp:502-556 | The first packet with its retries goes out of local storage: the caller's buffer is untouched and the payload limit is that of the copying sender. |
| `FastPacketizer.SendRest` | simulation/ejfat_packetize.hpp:502-583 | The later packets, with headers written over bytes already sent, are exactly the remaining packets of the original data. |
| `FastPacketizer.SendPacketizedBufferFastNew` | simulation/ejfat_packetize.hpp:471-593 | Fast refines simple: same packets, answer, offset and count as the copying sender, when the payload finally used is at least 36 or one packet suffices; the buffer is left with exactly the headers of the packets attempted written into it. Otherwise the second header is an out-of-bounds store, after the first packet. |
| `FastPacketizer.ScribbledWindows` | simulation/ejfat_packetize.hpp:566-570 | The caller's buffer changes only in the 36 bytes just before an internal packet boundary, and not at all from the last boundary on. |
| `FastPacketizer.ScribbledHeader` | simulation/ejfat_packetize.hpp:566-570 | Each such window finally holds its own packet's headers: no later header disturbs it. |
| `Packetizer.BoundaryIsMultiple` | simulation/ejfat_packetize.hpp:582-585 | The boundary of packet k lies k full payloads from the start. |
| `OldPacketizer.SendOldRound` | simulation/ejfat_packetize.hpp:1079-1145 | One round of the version 1 loop: the sequence number moves on, and is taken back when the packet is to be cut and tried again. |
| `OldPacketizer.SendPacketizedBufferSend` | simulation/ejfat_packetize.hpp:1049-1162 | The version 1 sender sends exactly its packets in order up to the first failure and returns the next sequence number, modulo 2^32, also after retries. |
| `OldPacketizer.PacketsNumbered` | simulation/ejfat_packetize.hpp:1078-1100 | Parsed back, the packets of a call bear the event's tick in both headers and are numbered without gap modulo 2^32; the first bit is on exactly the first packet of a first call, the last bit on exactly the last of a last call. |
| `OldPacketizer.PacketsCarry` | simulation/ejfat_packetize.hpp:1083-1103 | The packets of a call carry its data, in order and in full packets but for the last. |
| `OldPacketizer.StagesCarry` | simulation/ejfat_packetize.hpp:1083-1156 | All calls for an event together carry the event. |
| `OldPacketizer.StagesNumbered` | simulation/ejfat_packetize.hpp:1074-1156 | The same over all calls for an event, however it is cut into calls and whatever payload limits the retries leave. |
| `LoadBalancer.ForwardPacket` | emulation/lb_emu.cc:263-314 | A forwarded packet is the direct packet, on the port chosen by the entropy in its header. |
| `LoadBalancer.StrippedIsDirect` | emulation/lb_emu.cc:299-315 | Stripping all packets of a call gives exactly the packets of a direct sender, all to one port. |
| `LoadBalancer.GetPortRange` | simulation/ejfat.hpp:493-534 | The least exponent from 0 to 14 whose power of two is at least the number of sources, and 14 above 16384. |
| `LoadBalancer.ReachesOwnPort` | emulation/lb_emu.cc:302-314 | Every packet of a source whose entropy is its id is forwarded, as the direct packet, to port base + id, when the entropy bits cover the id. |
| `LoadBalancer.PortsAreSeparate` | simpleAPI/serverConsumer.cpp:359-366 | Sources 0 to n-1 with entropy equal to id reach exactly the receiver's port base + id each, if and only if the entropy bits are at least the port range of n. |
| `EndToEnd.EventSurvives` | simulation/ejfat_packetize.hpp:837-945 | End to end: packetize, strip, deliver in any order that starts with the first packet, with packets of other sources mixed in; a receiver in any state that accepts the first packet returns the event's exact bytes, tick and source on its last packet. |
| `EndToEnd.UndisturbedEventSurvives` | simulation/ejfat_packetize.hpp:837-945 | With no loss, reordering or other source, every nonempty event that fits is returned whole by the first call, for all payload limits and entropies. |
| `EndToEnd.ArrivalsAreHonest` | simulation/README.md:102-104 | Whatever arrives of packetized events, each packet at most once, satisfies the hypotheses of the safety theorem. |
| `EndToEnd.PartsTile` | simulation/ejfat_packetize.hpp:931-935 | The packets of a stretch of an event are nonempty fragments of it in ascending order without gap or overlap. |
| `EndToEnd.PacketsParse` | simulation/ejfat_assemble_ersap.hpp:864-869 | What a receiver parses from the bytes sent is source, tick, offset, full length and payload of each part. |
| `EndToEnd.EmptyEventFaults` | simulation/ejfat_assemble_ersap.hpp:871-876 | An event of no bytes is sent as one packet, and that packet makes a waiting receiver divide by zero. |
| `EndToEnd.LossOverruns` | simulation/ejfat_assemble_ersap.hpp:1326-1343 | For every event longer than twice the initial buffer, losing all but its first and last packet is honest input on which the allocating receiver writes out of bounds. |
| `StagedSending.StagesTile` | simulation/ejfat_packetize.hpp:854-942 | Consecutive nonempty pieces, each sent at the offset the previous call returned, give packets that tile the event. |
| `StagedSending.StagedRoundTrip` | simulation/ejfat_assemble_ersap.hpp:1425-1536 | Staged sending and staged reading are inverse, for all cuts into pieces, payload limits up to 9000 and reader buffers of at least 9000 bytes. |
| `ConsumerRing.SlotOwnership` | simpleAPI/serverConsumer.cpp:1048-1104 | In every interleaving a source's queued slots are the consecutive ring positions ending just before its current slot, so the slot being filled is never queued. |
| `ConsumerRing.RingIsFifoFromStart` | simpleAPI/serverConsumer.cpp:1206-1222 | In every interleaving from the start, the ring of reused slots accepts, refuses and hands out exactly what a bounded queue of copied items would, if and only if no call of `getEvent` reads a slot that was last rewritten with another item between its pop and its read. |
| `ConsumerRing.CleanRunsAreFifo` | simpleAPI/serverConsumer.cpp:1206-1222 | In particular in every interleaving in which no thread writes a slot between its pop and its read. |
| `ConsumerRing.MisreadIff` | simpleAPI/serverConsumer.cpp:1210-1219 | A call of `getEvent` can itself hand out another item than it popped if and only if everything it left in the queue is of that item's own source. |
| `ConsumerRing.RingIsFifoIff` | simpleAPI/serverConsumer.cpp:1048-1104 | The same equivalence from any related pair of states. |
| `ConsumerRing.StepRefines` | simpleAPI/serverConsumer.cpp:1086-1099 | One step of any thread or the user keeps the ring and the queue of copies related, and shows the same if and only if it is not a read of a slot rewritten to another item since its pop. |
| `ConsumerRing.FillChangesNoValue` | simpleAPI/serverConsumer.cpp:1071-1092 | Writing a slot, in part or in full, changes no queued item. |
| `ConsumerRing.RunKeepsInv` | simpleAPI/serverConsumer.h:267-283 | Every run keeps slot ownership, the queue bound and the exact value of the size counter. |
| `ConsumerRing.CounterBounds` | simpleAPI/serverConsumer.cpp:1095-1098 | `queueSize` lies between the queue's length less the number of sources and the length plus one, and is exact when quiet. |
| `ConsumerRing.PoppedItemStable` | simpleAPI/serverConsumer.cpp:1184-1196 | With k slots of its source still queued, a popped item is unchanged while that source makes fewer than 1023 - k further successful pushes; the source is back at its slot at exactly 1023 - k, and its next write then replaces the item. |
| `ConsumerRing.OverwrittenWithoutPop` | simpleAPI/serverConsumer.cpp:1189-1195 | A popped item can change before the next call of `getEvent` if and only if everything left in the queue is of its own source. |
| `ServerConsumer.ServerConsumer.constructor` | simpleAPI/serverConsumer.h:283-290 | The rings start empty, at slot 0, with the invariant. |
| `ServerConsumer.ServerConsumer.WriteBuffer` | simpleAPI/serverConsumer.cpp:1071-1072 | Reassembly into the current slot's buffer, in as many parts as it likes, is a sequence of partial writes of the ring. |
| `ServerConsumer.ServerConsumer.StoreItem` | simpleAPI/serverConsumer.cpp:1086-1092 | The assignments that complete the current slot: buffer, buffer size, data size, source and tick each in its field, as the ring's fill step. |
| `ServerConsumer.ServerConsumer.PushItem` | simpleAPI/serverConsumer.cpp:1095-1104 | A push succeeds exactly when the queue has room and then moves to the next slot; otherwise the slot is kept for the next event. |
| `ServerConsumer.ServerConsumer.CountItem` | simpleAPI/serverConsumer.cpp:1097-1098 | The separate counting step. |
| `ServerConsumer.ServerConsumer.PopItem` | simpleAPI/serverConsumer.cpp:1210-1211 | Fails exactly on an empty queue, otherwise takes the oldest slot. |
| `ServerConsumer.ServerConsumer.ReadItem` | simpleAPI/serverConsumer.cpp:1213-1221 | Counts down and returns event, buffer size, tick and source of the popped slot as it then is. |
| `ProducerRing.WrittenSlot` | simpleAPI/serverProducer.cpp:559-577 | In every interleaving the slot an add writes is not queued, and it is the slot in flight if and only if the queue holds all 2047 items; a push at such a moment is refused. |
| `ProducerRing.CleanRunsAreFifo` | simpleAPI/serverProducer.cpp:317-349 | While no add starts with a full queue and an item in flight, answers, data sent and callbacks run are exactly those of a bounded queue of copied items. |
| `ProducerRing.SendsAreAdds` | simpleAPI/serverProducer.cpp:317-349 | In every such interleaving from the start, what the thread sends (data, size, event number) and the callbacks it runs are those of the adds accepted, in order and field by field; what is missing is still waiting. |
| `ProducerRing.FifoConserves` | simpleAPI/serverProducer.cpp:328-347 | From any state: the items waiting and those added are those sent and those still waiting, and likewise for callbacks. |
| `ProducerRing.RefusedAddReplacesItemInFlight` | simpleAPI/serverProducer.cpp:562-576 | An add that starts at such a moment is refused if pushed at once, yet the data still to be sent and the callback of the item in flight become those of the refused add. |
| `ProducerRing.ClobberingIsReachable` | simpleAPI/serverProducer.h:202-217 | Such moments are reachable from the start. |
| `ProducerRing.RunKeepsInv` | simpleAPI/serverProducer.h:202-220 | Queued slots are the ring positions ending just before the current one, and the slot in flight is the one before those, in every run. |
| `ServerProducer.ServerProducer.constructor` | simpleAPI/serverProducer.h:214-220 | The ring starts empty at slot 0. |
| `ServerProducer.ServerProducer.BeginAdd` | simpleAPI/serverProducer.cpp:562-569 | The assignments to the current item, with the size cut to 32 bits. |
| `ServerProducer.ServerProducer.FinishAdd` | simpleAPI/serverProducer.cpp:571-576 | The push and its answer; the index moves only on success. |
| `ServerProducer.ServerProducer.PopItem` | simpleAPI/serverProducer.cpp:328-337 | Takes the oldest slot, or fails on an empty queue. |
| `ServerProducer.ServerProducer.SendItem` | simpleAPI/serverProducer.cpp:341-342 | Sends the event, size and event number that the popped slot then holds. |
| `ServerProducer.ServerProducer.Finish` | simpleAPI/serverProducer.cpp:344-347 | Runs the callback the slot then holds, if any, with its argument. |
| `EntryPool.PoolIsBounded` | simulation/ejfat_assemble_ersap_et.hpp:447-494 | At every step end of every run live ticks lie in the window of four prescales below the biggest tick, live and free entries are disjoint and are all entries made, at most window + 1 ticks are live, and at most max(10, window + 2) entries are ever made. |
| `EntryPool.LiveIff` | simulation/ejfat_assemble_ersap_et.hpp:211-494 | The ticks live after a run, from its input alone: exactly those that a packet following one of another tick made live and none since has completed, and that are within the window below the biggest tick, which is the maximum of all ticks seen. |
| `EntryPool.StepLive` | simulation/ejfat_assemble_ersap_et.hpp:447-494 | After one packet a tick is live if and only if it was live or is newly the packet's, was not completed by it, and is within the window; a tick that stays keeps its entry. |
| `EntryPool.StepBiggest` | simulation/ejfat_assemble_ersap_et.hpp:320-324 | The biggest tick becomes the larger of itself and the packet's tick. |
| `EntryPool.StepKeepsInv` | simulation/ejfat_assemble_ersap_et.hpp:211-494 | One packet keeps that accounting, whichever free entry the set yields and whether or not it completes its tick. |
| `EntryPool.LiveBound` | simulation/ejfat_assemble_ersap_et.hpp:455-461 | The pigeonhole: ticks within the window are at most window + 1. |
| `EntryPool.Assembler.constructor` | simulation/ejfat_assemble_ersap_et.hpp:159-167 | Ten free entries, no live tick. |
| `EntryPool.Assembler.SelectEntry` | simulation/ejfat_assemble_ersap_et.hpp:212-355 | Finds the tick's entry, or takes any free one, or makes a new one only when none is free; a new tick may raise the biggest tick. |
| `EntryPool.Assembler.EvictStale` | simulation/ejfat_assemble_ersap_et.hpp:447-494 | The housekeeping loop, in any iteration order, releases exactly the ticks behind the window and frees exactly their entries. |
| `EntryPool.Assembler.ProcessPacket` | simulation/ejfat_assemble_ersap_et.hpp:211-494 | One packet is one step of the pool and keeps its invariant. |
| `Pacing.DebtTelescopes` | clas_source/clasBlaster.cc:999-1034 | After k rounds the carried time is k times the time a bunch should take less the time elapsed, and is never positive. |
| `Pacing.LeakyBucket` | clas_source/clasBlaster.cc:969-1034 | Whatever the sending times and oversleeps, the buffers sent by elapsed time T never exceed one bunch more than the bunches whose time has passed. |
| `Pacing.RateIsKeptIff` | clas_source/clasBlaster.cc:969-1034 | In every run the buffers sent are at most the requested buffers per second times the elapsed time and one bunch, if and only if a bunch per rounded bunch time is not more than the requested rate. |
| `Pacing.RateIsNearlyKept` | clas_source/clasBlaster.cc:969-1034 | In any case the rate kept is at most the requested one with the bunch time one microsecond longer. |
| `Pacing.OnTimeKeepsUp` | clas_source/clasBlaster.cc:999-1034 | A sender whose pauses last exactly as asked and whose bunches are never late has used exactly its time after each bunch, and falls short of the requested rate by at most one buffer a bunch. |
| `Pacing.BunchIsLargest` | clas_source/clasBlaster.cc:970-975 | A bunch is the most buffers that make at most 500000 bytes on average. |
| `Pacing.RateRounding` | clas_source/clasBlaster.cc:975-983 | What the two integer divisions leave of the requested rate, bounded from both sides. |
| `Pacing.OversizedBound` | clas_source/clasBlaster.cc:975-1034 | For average buffers above 500000 bytes at most one buffer is sent per bunch time. |
| `Pacing.OversizedExceedsRate` | clas_source/clasBlaster.cc:975-1034 | That bound is reached, for any number of buffers, by pauses exactly as long as asked, and is more than the requested rate. |
| `Pacing.Pacer.constructor` | clas_source/clasBlaster.cc:980-994 | The loop's variables before the first buffer. |
| `Pacing.Pacer.SendOne` | clas_source/clasBlaster.cc:999-1034 | One turn changes the loop's variables as specified and asks for a pause of exactly the positive excess time of a used-up bunch. |
| `FillAverage.ExactIffNeverNegative` | simpleAPI/serverConsumer.cpp:915-928 | The running total equals the sum of the last n samples after every sample if and only if that sum is never negative. |
| `FillAverage.TotalIsOffByLowest` | simpleAPI/serverConsumer.cpp:915-928 | For all samples the running total is never negative and exceeds the true sum by exactly the lowest value that sum has had below zero. |
| `FillAverage.FillTotalExact` | simpleAPI/serverConsumer.cpp:907-928 | For samples of 0 to 1023 and 1000 kept, the total is always exact, never clamped and below 2^24. |
| `FillAverage.FillMeter.constructor` | simpleAPI/serverConsumer.cpp:844-850 | Zeros, total 0, indexes 0 and 1. |
| `FillAverage.FillMeter.Sample` | simpleAPI/serverConsumer.cpp:907-942 | After each sample the ring holds the last n samples in rotation, the earliest index stays one ahead of the current one, and the value there is the oldest kept. |
| `Headers.ParseReOfReBytes` | simulation/ejfat_assemble_ersap.hpp:509-522 | Parsing the version 2 header a setter wrote returns every field, version and reserved cut to their 4 and 8 bits. |
| `Headers.ReBytesOfParseRe` | simulation/ejfat_packetize.hpp:329-340 | Writing parsed fields back gives the same bytes if and only if the four unused bits of the first byte are zero. |
| `Headers.ParseReOfReBytesOld` | simulation/ejfat_assemble_ersap.hpp:423-435 | The same round trip for the version 1 header with its first and last bits. |
| `Headers.ParseLbOfLbBytes` | simulation/ejfat_assemble_ersap.hpp:344-358 | A written LB header is recognised and parsed back, each field cut to its width. |
| `Headers.ParsedIffLbHeader` | simulation/ejfat_assemble_ersap.hpp:344-358 | The bytes are an LB header some setter call writes if and only if the parser accepts them and the two reserved bytes are zero. |
| `Headers.Bswap32Store` | simulation/ejfat_assemble_ersap.hpp:69-75 | A little-endian store of the swapped 32-bit integer leaves network byte order. |
| `Headers.Bswap64Store` | simulation/ejfat.hpp:50-53 | The same for 64 bits, for `htonll` and `bswap_64`. |
| `Headers.Be64RoundTrip` | simulation/ejfat.hpp:52 | Reading eight bytes in network order undoes writing them. |
| `Headers.SetLbMetadata` | simulation/ejfat_packetize.hpp:166-176 | Writes exactly the 16 LB header bytes at the given place and nothing else. |
| `Headers.SetReMetadata` | simulation/ejfat_packetize.hpp:329-340 | Writes exactly the 20 bytes of the version 2 header at the given place and nothing else. |
| `Headers.SetReMetadataOld` | simulation/ejfat_packetize.hpp:225-236 | Writes exactly the 18 bytes of the version 1 header, zero padding included, at the given place and nothing else. |

## Left out

- Packetizer.SendPacketizedBufferSendNew: needs a positive payload limit, `offset` plus length below 2^32, and for a first buffer a path limit above the headers (exactly when the loop ends, by `SendingEndsIff`); delays between packets and `sendto` are not modelled.
- FastPacketizer.SendPacketizedBufferFastNew: the same, and no more is said of a call after an out-of-bounds store.
- OldPacketizer.SendPacketizedBufferSend: needs a positive payload limit and for a first buffer a path limit above the headers; the version 1 in-place sender repeats the version 2 one and is not modelled.
- Receiver.GetCompletePacketizedBuffer: dropped and discarded counts, which the code calls estimates, and the time stamp are not modelled; accepted and bad-source counts are.
- Receiver.GetCompleteAllocatedBuffer: failing allocations and the null-argument answer are not modelled; growing always moves the buffer, where `realloc` may leave it in place; a store out of bounds is the outcome `OVERRUN`.
- StagedReader.GetPacketizedBuffer: needs a buffer below 2^32 bytes and offset 0 on the very first call; a payload larger than the room left ends in the outcome `PAST_END`; the tick handed back by a call that reads nothing is uninitialised in the code, here it is the one passed in.
- ConsumerRing.RingIsFifoFromStart: a single user calls `getEvent`, and reads the fields of a slot in one step; a slot is written in any number of steps.
- ProducerRing.RefusedAddReplacesItemInFlight: the assignments of one add are one step, and the thread takes none between them and the push.
- EntryPool.PoolIsBounded: ticks are assumed below 2^64 - 1 and the window sum not to wrap; packet contents, byte counts and the completeness test are a parameter, and packets of unknown sources are skipped.
- Pacing.LeakyBucket: needs a bunch of at least one buffer and a positive time per bunch; clock readings are whole microseconds.
- Pacing.RateIsKeptIff: the same; a requested rate so high that the bunch time rounds to 0 sets no limit.
- FillAverage.FillTotalExact: samples are integers from 0 to 1023; the size counter itself can leave that range by the bounds of `CounterBounds`, and `ExactIffNeverNegative` then says when the total is exact.
- Sockets and their options, thread affinity, gRPC registration, URI parsing, HIPO files and the ET library.
- The PID output and the adjustment of the sample time: floating-point detail.
- `EjfatConsumer`: the same ring, except that it does not store the tick in the slot.
- Automatic event numbers: the event number is an argument.
- The registration message codecs of `simpleEjfat.h` and the receivers under `emulation/`: easy field copying, and weaker copies of the reassembler.
