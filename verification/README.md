# Verified model of the SEDSnet router core

SEDSnet moves telemetry packets between boards over lossy links. A router or relay owns numbered
*sides* (links), a schema of packet types and endpoints, byte-budgeted queues, a reliable window for
every (side, type) stream, and an index of what discovery packets said is reachable on each side.
This project models that core in Dafny and proves what it promises over whole runs and for every
input: nothing is delivered out of order or acknowledged before it is handed on, frames and
topology payloads survive the trip, the discovery index never disagrees with the boards it was built
from, advertisements do not depend on hash-map order, weighted routing is exactly fair, queues stay
within budget, dates and network time behave, and the streaming hash is the one-shot hash.

`dafny verify dfyconfig.toml` checks everything.

## How to read it

| module | content |
|---|---|
| `ReliableStreams`, `ReliableOwner` | one stream's window as values; the owner's methods, which update it in place and are proved equal to the value-level operations |
| `LinkModel`, `LinkInvariant`, `LinkProtocol`, `LinkSteps`, `LinkLimits`, `WireLink` | two nodes and a network that loses, duplicates, delays and reorders; what every step keeps; safety over runs; each step field by field and what partial acks prove; how far it all reaches; the same over real v4 frames |
| `Uleb128`, `Schema`, `EndpointBitmap`, `Frames`, `FrameProofs`, `ForeignFrames` | the v4 wire format: writers, the full reader, the peeking reader and the header-offset reader; frames of other writers, and what any accepted byte string must look like |
| `Boards`, `TopologyCodec` | board lists understood as sets of facts; the nested topology payload |
| `MapPasses`, `DiscoveryIndex`, `DiscoveryOwner`, `Advertise` | the two-level index, its handlers and expiry, and what is advertised |
| `Routing`, `RoutePolicy` | candidate selection, overrides, fanout / weighted / failover |
| `Queues`, `Memories` | byte budgets, recent ids, return routes |
| `Calendar`, `NetworkTime` | civil dates and network time |
| `Sha256`, `Crypto` | buffered SHA-256, HMAC, the keystream, seal and open |
| `Bytes`, `Sorting`, `Packets` | shared vocabulary |

Modelling choices:

- 32- and 64-bit words are integers with their range in the type; every wrap is written
  out unless listed below (sequence numbers skip 0, clocks subtract modulo 2^64, retry counters and ULEB128
  values wrap). Bit tests on bytes are arithmetic.
- Hash maps are `map`s; a loop over one picks its next key freely, so every result about such a loop
  holds for every iteration order.
- The network is a growing set of frames: one that is never taken is lost, one taken twice is
  duplicated. A failed transmit still consumes its number and its bytes may have left.
- The clock, callback answers, the compressor, the checksum, the sender hash and the SHA-256
  compression function are parameters. The only law asked of them is that decompression inverts
  compression.
- The capacity of the recent-id cache is at least 1, as the memory configuration check demands
  (Cpp-Headers/internal.hpp:67-72).

## Model

| member | source | states |
|---|---|---|
| `LinkInvariant.RunInv` | src/router_core.cpp:255-553 | every send, arrival, control message and timeout of every run before the wrap keeps window, network, acks, buffer and released history consistent with the numbered packets |
| `LinkProtocol.OrderedDelivery` | src/router_core.cpp:406-512 | in every run of sender, receiver and network on an ordered stream before the sequence wrap, the packets handed on are exactly those numbered 1..expectedSeq-1, in order, each once, each unaltered; runs may contain packets no reader understands, and any control traffic |
| `LinkProtocol.UnorderedIntegrity` | src/router_core.cpp:427-432 | in every run of an unordered stream, whatever is handed on was given that number and is unaltered |
| `LinkProtocol.AckSoundness` | src/router_core.cpp:255-275 | in every reachable state, a link ack takes an entry out of the send window only if the peer has already handed that packet on |
| `LinkProtocol.AckExact` | src/router_core.cpp:1144-1191 | over all messages of the peer about the stream, and end-to-end acks of any id: one removes a packet that was not handed on if and only if it is an end-to-end ack whose low word names the stream and whose high word, read as a number, covers it (ordered) or equals it (unordered) |
| `LinkProtocol.EndToEndMisread` | src/router_core.cpp:1169-1182 | a run in which that happens: one packet sent, nothing arrived, and an end-to-end ack empties the window |
| `LinkProtocol.AckNumbers` | src/router_core.cpp:427-475 | every new ack of an ordered stream names expectedSeq-1; of an unordered stream, the one packet just handed on |
| `LinkProtocol.WindowInvariants` | src/router_core.cpp:479-512 | the sender over all runs before the wrap: the send order strictly ascends and lists exactly the window's keys, at most maxPending; each entry's bytes are the frame first sent |
| `LinkProtocol.ReceiverInvariant` | src/router_core.cpp:442-475 | the receiver over every run whatsoever, past the wrap too and whatever the wire does: expectedSeq is never 0, buffered keys exceed it and are at most maxPending, and a step that lowers expectedSeq leaves the buffer empty |
| `LinkSteps.PartialAckTruth` | src/router_core.cpp:442-451 | in every run of an ordered stream before the wrap, each partial ack on the way back names a packet whose frame arrived at that instant while an earlier one was missing and was asked for; the packet is still buffered, or handed on, or was refused by a full buffer |
| `LinkSteps.HeldStays` | src/router_core.cpp:442-475 | no step of an ordered stream forgets a number that is buffered or handed on |
| `LinkSteps.HeldGenuine` | src/router_core.cpp:442-475 | in every run, what is buffered or handed on under a number is the packet that was given it, as it left the sender |
| `LinkSteps.OnlyAcks` | src/router_core.cpp:427-432 | no run of an unordered stream makes a partial ack or a request |
| `LinkSteps.GapStep` | src/router_core.cpp:442-451 | a frame beyond a gap adds exactly a partial ack of its own number and a request of the expected one, hands nothing on, and is kept under its number if there is room and none is there |
| `LinkSteps.NextStep` | src/router_core.cpp:454-475 | the expected frame is handed on with the longest run of consecutive buffered ones; one ack names the last; the rest stays buffered; the wrap included |
| `LinkSteps.OlderStep` | src/router_core.cpp:435-440 | an old frame is answered with an ack of expectedSeq - 1 and changes nothing else |
| `LinkSteps.UnorderedStep` | src/router_core.cpp:421-432 | an unordered frame is handed on and acknowledged under its own number; an unsequenced one is only handed on |
| `LinkSteps.DrainExact` | src/router_core.cpp:461-473 | draining releases consecutive numbers as far as they go and keeps exactly the others |
| `LinkSteps.SendExact` | src/router_core.cpp:498-511 | the next number is consumed; bytes, time and cleared counters are remembered if the transmit succeeded |
| `LinkSteps.PartialExact` | src/router_core.cpp:278-319 | a partial ack marks and a request refreshes the one entry it names, field by field; no entry comes or goes |
| `LinkSteps.TickExact` | src/router_core.cpp:528-550 | field by field: an entry neither queued nor marked whose timer ran out is dropped when out of retries, else resent with its counter up by one |
| `LinkLimits.RetryBound` | src/router_core.cpp:515-553 | in every run with fewer than 2^32 - maxRetries effective packet requests, no frame gets more than maxRetries successful timeout resends |
| `LinkLimits.RefillRun` | src/router_core.cpp:292-319 | a run from the start, its clock never going back and no control message taken twice, with 2^32 - maxRetries requests in which one frame gets maxRetries + 1 timeout resends: requests carry the 32-bit retry counter round |
| `LinkLimits.RetryBoundExact` | src/router_core.cpp:515-553 | all runs with at most n effective requests (equally: all runs with a steady clock in which no control message is taken twice) keep the bound if and only if n + maxRetries < 2^32, or the stream is unordered, or the window holds one packet, or there are no retries |
| `LinkLimits.WrapReadmits` | src/router_core.cpp:442-475 | a run of 2^32 - 1 packets, all delivered and acknowledged, in which the receiver takes an old copy of packet 1 again |
| `LinkLimits.DeliveryExact` | src/router_core.cpp:406-512 | all runs of at most n packets deliver in order if and only if n < 2^32 - 1 |
| `WireLink.WireFaithful` | src/serialize.cpp:520-545 | a v4 data frame of the stream is read as sent, with its header, or not at all, whatever endpoints the packet lists |
| `WireLink.WireControlFaithful` | src/router_core.cpp:1144-1191 | how a node reads every control message off the wire: link acks as ack-only frames, partial acks and requests through the dispatch, end-to-end acks as link acks of another meaning |
| `WireLink.SenderIsAddress` | src/serialize.cpp:413-413 | no frame yields a sender marked as end-to-end, so the check for one never succeeds on v4 frames |
| `WireLink.EndToEndArrival` | src/core.cpp:460-469 | an end-to-end ack, written and read back, is dispatched as a link ack: low word the type, high word the number |
| `WireLink.SomeLinkStream` | src/serialize.cpp:38-40 | streams and control types that meet the wire contract exist |
| `WireLink.StreamsApart` | src/router_core.cpp:1144-1191 | link acks, partial acks and requests of one runtime type's stream never reach the window of another type's |
| `WireLink.DataApart` | src/serialize.cpp:520-545 | nor does its data |
| `WireLink.OrderedDeliveryOnWire` | src/router_core.cpp:406-512 | ordered delivery for two nodes exchanging byte strings |
| `WireLink.PartialAckTruthOnWire` | src/router_core.cpp:442-451 | the same truth of partial ack packets over serialized frames |
| `WireLink.WrongChecksumRejected` | src/serialize.cpp:561-572 | a node makes nothing of a byte string whose last four bytes are not the checksum of the others |
| `WireLink.AckSoundnessOnWire` | src/serialize.cpp:547-559 | a link ack read off the wire removes only packets the peer has handed on |
| `WireLink.AckExactOnWire` | src/router_core.cpp:1144-1191 | over bytes: exactly an end-to-end ack whose low word resolves to the stream's type and whose high word takes the packet removes one that was not handed on |
| `WireLink.EndToEndMisreadOnWire` | src/router_core.cpp:1169-1182 | over bytes, a run in which it happens |
| `WireLink.RetryBoundOnWire` | src/router_core.cpp:515-553 | the exact reach of the retry bound over bytes |
| `WireLink.DeliveryExactOnWire` | src/router_core.cpp:406-512 | the exact reach of ordered delivery over bytes |
| `ReliableStreams.AcceptKeepsRxInv` | src/router_core.cpp:406-475 | every arrival, across the wrap too, keeps expectedSeq nonzero, the buffer within maxPending and its keys above expectedSeq; if expectedSeq goes down the buffer is empty |
| `ReliableStreams.DrainInv` | src/router_core.cpp:461-473 | draining restores the strict bound on buffered keys and ends empty at 1 when it wraps |
| `ReliableStreams.PopAckedEffect` | src/router_core.cpp:269-275 | a cumulative ack removes exactly the numbers it covers |
| `ReliableStreams.AcknowledgeEffect` | src/router_core.cpp:255-275 | either kind of ack keeps the window invariant and removes nothing but what it names |
| `ReliableStreams.ExpireAllEffect` | src/router_core.cpp:526-551 | the timeout pass treats every entry by its own state only: dropped when due and out of retries, bumped when due and resent, else untouched |
| `ReliableOwner.KeyInjective` | src/core.cpp:556-559 | two streams never share a key |
| `ReliableOwner.KeyParts` | src/core.cpp:556-559 | side and type can be read back from the key, as the timeout pass does |
| `ReliableOwner.OfferedExact` | src/router_core.cpp:526-545 | a stream's pass offers the frame of a listed number if and only if its entry is neither queued nor marked, its timer has run out and retries are left |
| `ReliableOwner.OfferedAscending` | src/router_core.cpp:526-545 | in ascending order, each once, from an ascending window |
| `ReliableOwner.OfferedOnce` | src/router_core.cpp:526-545 | none twice, from a window without repeats |
| `ReliableOwner.Owner.HandleAck` | src/router_core.cpp:255-275 | the in-place ack, loop included, is the window's acknowledgement; other streams stay |
| `ReliableOwner.Owner.HandlePartialAck` | src/router_core.cpp:278-289 | marks exactly the named entry |
| `ReliableOwner.Owner.HandlePacketRequest` | src/router_core.cpp:292-319 | resends the stored bytes and updates the entry, whatever the callback answers |
| `ReliableOwner.Owner.Ingress` | src/router_core.cpp:406-475 | return value, released packets, replies in queue order and new state are those of the window's acceptance step (spelled out by the `LinkSteps` rows), for header-less, ack-only, unsequenced and sequenced frames |
| `ReliableOwner.Owner.DrainInto` | src/router_core.cpp:461-473 | the extraction loop releases exactly what draining releases, in order |
| `ReliableOwner.Owner.Send` | src/router_core.cpp:479-512 | full window refused without a number; otherwise the number is consumed, and remembered only if the transmit succeeded |
| `ReliableOwner.Owner.ExpireStream` | src/router_core.cpp:526-551 | one stream's pass: new window, and the stored frames of the offered numbers go to the given side in order |
| `ReliableOwner.Owner.Timeouts` | src/router_core.cpp:515-553 | every stream on a usable side takes its pass once, in any order; the new transmissions are exactly the stored frames of the overdue entries of those streams, each on the side of its own key, none twice if no window lists a number twice |
| `Uleb128.UlebRoundTrip` | src/serialize.cpp:256-282 | any 64-bit value reads back at any position, whatever stands before and after, with the cursor right behind it |
| `Uleb128.Write` | src/serialize.cpp:256-265 | the writing loop appends the encoding |
| `Uleb128.ReadLoop` | src/serialize.cpp:267-282 | the reading loop yields the spelled number modulo 2^64, or fails, within ten bytes, on every input |
| `ForeignFrames.UlebExamples` | src/serialize.cpp:256-265 | the encodings given as examples in section 7.6 of DWARF 5 |
| `Schema.TypeIdRoundTrip` | src/serialize.cpp:42-113 | a valid type keeps its number across the wire if and only if it is the first of its built-in name, or lives at 100 or above, or nothing valid sits at its number plus 100 |
| `Schema.BuiltinTablesAgree` | src/serialize.cpp:72-113 | the writer's name chain and the reader's switch are inverse |
| `Schema.NumbersApart` | src/serialize.cpp:42-70 | two runtime types never share a number on the wire |
| `Schema.NumbersShared` | src/serialize.cpp:42-70 | two user types share one if and only if the lower is below 100 and the other exactly 100 above it; the lower is then no runtime type |
| `Schema.ScanLinkLocalOnly` | src/core.cpp:563-583 | the scan decides whether some type uses the endpoint and all such types are link-local |
| `EndpointBitmap.BitmapRoundTrip` | src/serialize.cpp:162-183 | registered endpoints in 100..255 read back from the bitmap in ascending order |
| `EndpointBitmap.BuildBitmap` | src/serialize.cpp:162-171 | the setting loop builds the bitmap |
| `EndpointBitmap.ScanBitmap` | src/serialize.cpp:173-185 | the scanning loop reads it, skipping bits that name nothing |
| `FrameProofs.HeaderRoundTrip` | src/serialize.cpp:204-254 | compact and fixed reliable headers read back at any position |
| `FrameProofs.PacketRoundTrip` | src/serialize.cpp:338-418 | for every packet with a runtime type and distinct registered endpoints in 100..255 that is not a link ack, deserializing the serialization gives type, timestamp and payload back, endpoints ascending, the sender as its address |
| `FrameProofs.PacketSeen` | src/serialize.cpp:338-418 | for every list of endpoints: the packet is read back, endpoints as the bitmap carries them, if and only if the endpoint count in the frame is the count the bitmap is read with; otherwise nobody reads it |
| `FrameProofs.ReliableFrameRoundTrip` | src/serialize.cpp:520-545 | frames with a reliable header: full and peeking reader both see what was sent, header included |
| `FrameProofs.PlainFrameRoundTrip` | src/serialize.cpp:485-518 | frames without one |
| `FrameProofs.AckFrameRoundTrip` | src/serialize.cpp:547-559 | an ack-only frame is peeked with its type and number and is never taken for a packet |
| `FrameProofs.QueuedAckFrame` | src/serialize.cpp:485-496 | a queued link-ack packet leaves as the ack-only frame of the acknowledged type |
| `FrameProofs.QueuedAckRoundTrip` | src/core.cpp:436-458 | from making the control packet to peeking it at the peer: same type, same number |
| `FrameProofs.PeekAgrees` | src/serialize.cpp:561-628 | on every byte string, what deserializes also peeks under CRC check, with the same type, endpoints, sender and timestamp |
| `FrameProofs.OffsetAgrees` | src/serialize.cpp:678-717 | on every byte string, whenever peek finds a reliable header, reading at the reported offset yields that header |
| `FrameProofs.WrongChecksum` | src/serialize.cpp:338-347 | on every byte string, a wrong checksum is refused by the full reader and by the checking peek |
| `FrameProofs.ChangedTail` | src/serialize.cpp:338-347 | any change confined to the last four bytes of a sealed frame is refused |
| `FrameProofs.WrittenSealed` | src/serialize.cpp:485-559 | everything the serializers write is sealed |
| `ForeignFrames.ForeignShown` | src/serialize.cpp:349-418 | in every well-formed v4 frame of any writer, with or without nonce, contract block and bitmap, the readers come across type, size, time, sender, endpoints and header where they stand |
| `ForeignFrames.ShownReads` | src/serialize.cpp:349-418 | a sealed frame in which they do is read alike by all three readers, field by field, compressed or not |
| `ForeignFrames.AcceptedFrame` | src/serialize.cpp:338-418 | conversely, whatever byte string is taken for a packet has a right checksum, a known type, the endpoint count it claims, no ack-only header and a payload of the stated size, and the packet's fields are the frame's |
| `ForeignFrames.AcceptedPeek` | src/serialize.cpp:561-628 | the same for the peek, checksum on demand |
| `ForeignFrames.LegacyBytes` | src/serialize.cpp:24-28 | a frame counts as v4 if and only if its first byte is at least 2 |
| `ForeignFrames.HeaderLengths` | src/serialize.cpp:204-223 | a written header is at most nine bytes, at most seven with one number absent, and the two usual forms byte for byte |
| `ForeignFrames.SendersApart` | src/serialize.cpp:413-413 | readers name senders by "@addr:" and the decimal address; different addresses give different names |
| `ForeignFrames.FrameExample` | src/serialize.cpp:520-545 | one reliable data frame byte by byte |
| `Boards.FactsDetermine` | Cpp-Headers/discovery_helpers.hpp:31-42 | a canonical list (strictly sorted everywhere, no self-connection) is determined by the facts it states |
| `Boards.NormalFacts` | Cpp-Headers/discovery_helpers.hpp:31-42 | without repeated ids, any sort-and-unique loses self-connections and nothing else |
| `Boards.NormalDetermined` | Cpp-Headers/discovery_helpers.hpp:40-41 | without repeated ids, every way of sorting equal keys gives the same list |
| `Boards.NormalizeCanonical` | Cpp-Headers/discovery_helpers.hpp:31-42 | normalising always ends in a canonical list |
| `Boards.NormalizeIdle` | Cpp-Headers/discovery_helpers.hpp:31-42 | a list is left unchanged if and only if it is canonical; normalising is idempotent |
| `Boards.Normalize` | Cpp-Headers/discovery_helpers.hpp:31-42 | the in-place loop computes it |
| `Boards.MergeFacts` | Cpp-Headers/discovery_helpers.hpp:44-60 | merging into distinct ids unites the facts of both lists, self-connections aside, canonically |
| `Boards.MergeAlgebra` | Cpp-Headers/discovery_helpers.hpp:44-60 | on canonical lists merging is commutative, associative and idempotent |
| `Boards.Merge` | Cpp-Headers/discovery_helpers.hpp:44-60 | the find-or-append loop computes it |
| `Boards.Summarize` | Cpp-Headers/discovery_helpers.hpp:62-78 | exactly the endpoints and sources some board lists, strictly sorted |
| `TopologyCodec.TopologyRoundTrip` | Cpp-Headers/discovery_helpers.hpp:163-288 | decoding a built payload gives the normalised list without the discovery endpoint and empty strings, all bytes consumed, whenever the lengths fit 32 bits |
| `TopologyCodec.TopologyFactsSurvive` | Cpp-Headers/discovery_helpers.hpp:163-288 | fact by fact, what survives build and decode |
| `TopologyCodec.PayloadPrefixFree` | Cpp-Headers/discovery_helpers.hpp:226-288 | no proper prefix and no proper extension of a built payload decodes |
| `TopologyCodec.BoardExample` | Cpp-Headers/discovery_helpers.hpp:163-209 | one board byte by byte |
| `TopologyCodec.BuildTopology` | Cpp-Headers/discovery_helpers.hpp:163-209 | the appending loops write that payload |
| `TopologyCodec.DecodeSizedString` | Cpp-Headers/discovery_helpers.hpp:211-224 | reading at the offset: the string and the next offset, or the error, on every input |
| `TopologyCodec.DecodeBoard` | Cpp-Headers/discovery_helpers.hpp:236-281 | one board at the offset, with every truncation check |
| `TopologyCodec.DecodeTopologyPayload` | Cpp-Headers/discovery_helpers.hpp:226-288 | the offset loop accepts exactly what the grammar accepts with no bytes left, and returns a canonical list |
| `DiscoveryIndex.IndexInvariant` | src/discovery.cpp:22-112 | after any run of announce, source-list, topology, other, leave, expiry and side-removal steps, each route's sets and time are the union and maximum over its announcers, each announcer's sets the union over its canonical boards, and no route is empty |
| `DiscoveryIndex.LookupScansBoards` | src/router_core.cpp:801-827 | under the invariant, looking an endpoint or source up in a route equals scanning all its boards |
| `DiscoveryIndex.HeardInv` | src/discovery.cpp:405-460 | every message keeps the invariant |
| `DiscoveryIndex.AnnounceEffect` | src/discovery.cpp:420-432 | an announce replaces what the announcer says of its own endpoints and no other fact |
| `DiscoveryIndex.SourcesEffect` | src/discovery.cpp:433-438 | a source list replaces what the announcer says of its own time sources and no other fact |
| `DiscoveryIndex.TopologyEffect` | src/discovery.cpp:439-453 | a topology replaces all the announcer told by the visible facts of the new list |
| `DiscoveryIndex.HeardFrame` | src/discovery.cpp:454-456 | a message touches one announcer on one side and dates it; everything else stays |
| `DiscoveryIndex.AnnounceFlag` | src/discovery.cpp:420-432 | an announce is flagged as a change exactly when it is one, if and only if: without an own board the list is not empty; with one, nothing is hidden or the stored list is neither the visible nor the whole one |
| `DiscoveryIndex.SourcesFlag` | src/discovery.cpp:433-438 | a source list likewise, if and only if the sender has an own board or the list is not empty |
| `DiscoveryIndex.TopologyFlag` | src/discovery.cpp:439-453 | a topology is flagged exactly when it changes the boards |
| `DiscoveryIndex.LeaveComplete` | src/discovery.cpp:77-112 | after a leave of X no announcer, board or connection names X, the invariant holds, and the index changed if and only if it named X |
| `DiscoveryIndex.LeaveEffect` | src/discovery.cpp:77-112 | every other announcer stays with its time and every fact that does not mention X |
| `DiscoveryIndex.PruneExact` | src/discovery.cpp:53-75 | expiry keeps exactly the announcers heard within 30 s and the routes that have one, unchanged otherwise, and changes the index if and only if something was stale |
| `DiscoveryIndex.PruneKeeps` | src/discovery.cpp:53-75 | an announcer survives expiry if and only if it was heard at most 30000 ms ago |
| `DiscoveryOwner.DecodeAnnounce` | src/discovery.cpp:120-132 | the announced valid endpoints, sorted, trailing bytes ignored |
| `DiscoveryOwner.DecodeSources` | src/discovery.cpp:134-157 | the non-empty strings as far as the payload reaches, sorted |
| `DiscoveryOwner.AnnounceRoundTrip` | src/discovery.cpp:342-347 | an announce payload as queued is read back as its valid endpoints, sorted, discovery left out |
| `DiscoveryOwner.SourcesRoundTrip` | src/discovery.cpp:329-336 | a source-list payload as queued is read back, sorted, empty names left out |
| `DiscoveryOwner.AnnounceReceived` | src/discovery.cpp:420-432 | from the bytes of an announce to the index: the sender's board then reaches exactly the written endpoints that are valid, not discovery, and visible from the side |
| `DiscoveryOwner.SourcesReceived` | src/discovery.cpp:433-438 | from the bytes of a source list to the index: exactly the non-empty names written |
| `DiscoveryOwner.InterpretSorted` | src/discovery.cpp:120-165 | whatever the payload, what is understood is sorted and canonical |
| `DiscoveryOwner.RefreshSender` | src/discovery.cpp:22-30 | the announcer's caches become the sums over its normalised boards |
| `DiscoveryOwner.RecomputeRoute` | src/discovery.cpp:32-41 | the loop over announcers, in any order, yields unions and maximum |
| `DiscoveryOwner.LearnMessage` | src/discovery.cpp:415-453 | the three message branches, with the change flag as the code computes it (before link-local endpoints are taken out) |
| `DiscoveryOwner.Discovery.Handle` | src/discovery.cpp:405-460 | whole new index and schedule for every packet, own packets and packets without a side ignored; keeps the invariant |
| `DiscoveryOwner.Discovery.PruneLeaving` | src/discovery.cpp:77-112 | in-place leave: complete, and its flag is true exactly when the index changed |
| `DiscoveryOwner.Discovery.PruneRoutes` | src/discovery.cpp:53-75 | in-place expiry: nothing stale remains, and its flag is exact |
| `DiscoveryOwner.Discovery.RemoveSide` | src/router_api.cpp:564-564 | removing a side forgets its route and keeps the invariant |
| `Advertise.Topology` | src/discovery.cpp:220-273 | for any order of visiting routes and announcers the list is canonical and states exactly the facts of the owner's board and of the live announcers' boards, each connected to the owner, link-local ones hidden |
| `Advertise.TopologyTwice` | src/discovery.cpp:220-273 | two walks in different orders give the same list |
| `Advertise.LinkLocalStaysHidden` | src/discovery.cpp:167-181 | on a side without link-local no link-local-only endpoint is advertised, if and only if it is not the case that time sync is on and TIME_SYNC itself is link-local-only |
| `Advertise.FreshAdvertised` | src/discovery.cpp:237-270 | an announcer heard within 30 s is advertised as connected to the owner both ways, and all it told is passed on, link-local-only endpoints only where they may show |
| `Advertise.BareAdvertised` | src/discovery.cpp:246-252 | without a topology, it is advertised with what it announced |
| `Advertise.OnlyFresh` | src/discovery.cpp:237-270 | every advertised fact about another board comes from such an announcer |
| `Advertise.AloneAdvertised` | src/discovery.cpp:167-202 | a router that hears nobody advertises exactly its own endpoints and time source |
| `Advertise.Endpoints` | src/discovery.cpp:275-289 | exactly the advertised endpoints that may show, sorted, discovery left out |
| `Advertise.LocalBoard` | src/discovery.cpp:183-218 | the owner's board: own endpoints, time source, and the live announcers as neighbours |
| `Routing.DefaultCandidates` | src/router_core.cpp:760-845 | sorted, exactly the sides with a live route to the preferred source, else to an endpoint, else all open sides; never the source side |
| `Routing.Admit` | src/router_core.cpp:872-913 | the chain of override branches lets a side through if and only if it exists, is open, takes the packet, is not overridden to false, and is typed true or nothing is typed for this source and type |
| `Routing.SelectDestinations` | src/router_core.cpp:847-915 | an explicit destination bypasses everything; otherwise the policy chooses from exactly the allowed candidates in ascending order, never the source side, only sides open for egress, and sides without link-local only for packets with an endpoint that is not link-local only or none at all |
| `Routing.LookupIsScan` | src/router_core.cpp:801-827 | with a consistent index, candidates are found as if every board were scanned |
| `Routing.CandidateMeaning` | src/router_core.cpp:760-845 | the candidates without the predicates of the loops: routes heard within 30 s offering the preferred source, else reaching an endpoint, else sides open for egress; never the source side, never a side that may not carry the packet |
| `Routing.LinkLocalConfined` | src/router_core.cpp:766-838 | a packet all of whose endpoints are link-local only is never a candidate for, nor admitted to, a side without link-local |
| `RoutePolicy.Policy.Apply` | src/core.cpp:510-554 | fanout keeps the list, failover takes the first side of least priority, weighted the side whose share holds the counter; only the counter changes |
| `RoutePolicy.Policy.PickWeighted` | src/core.cpp:542-554 | the running-total loop finds that side and never falls through |
| `RoutePolicy.PickMeaning` | src/core.cpp:542-552 | the chosen side is the one at which the prefix sums of the weights pass the counter |
| `RoutePolicy.TotalSnoc` | src/core.cpp:530-536 | each side adds its weight, at least 1, to the total |
| `RoutePolicy.FailoverMeaning` | src/core.cpp:516-529 | no side ranks below the chosen one; a side without a priority ranks as 2^31 - 1 |
| `RoutePolicy.WeightedFairness` | src/core.cpp:510-554 | over any W consecutive calls (W the total weight, counter not wrapping) each of the distinct sides is chosen exactly max(1, weight) times |
| `RoutePolicy.FairnessExact` | src/core.cpp:510-554 | fair from every value of the 64-bit counter, the wrap included, if and only if there is one side or the total weight divides 2^64 |
| `RoutePolicy.ApplyPeriod` | src/core.cpp:510-554 | W calls of the policy return exactly those choices, hence each side its weight |
| `Queues.FitLongest` | src/queue.cpp:12-15 | evicting from the front leaves the longest suffix that fits |
| `Queues.Queue.Enqueue` | src/queue.cpp:6-23 | counter equals the summed costs and stays within budget; an item over budget is refused and nothing evicted; otherwise the item is first after a front put and last after a back put, beside the longest fitting suffix of the old items |
| `Queues.NewQueues` | src/queue.cpp:27-38 | the two queues charge what byte_cost charges |
| `Queues.Queue.Pop` | src/queue.cpp:72-90 | the oldest item leaves with its bytes |
| `Queues.EraseSide` | src/router_api.cpp:79-109 | both queues lose exactly the items of the side, accounting kept |
| `Queues.SharedFits` | Cpp-Headers/internal.hpp:489-510 | the shared pass ends with both queues together within budget, each a suffix of what it was |
| `Queues.SharedGivesWay` | Cpp-Headers/internal.hpp:489-510 | a pair within budget stays; over budget the fuller queue loses its oldest item, the receive queue on a tie |
| `Queues.EnforceShared` | Cpp-Headers/internal.hpp:489-510 | the loop over both queues computes it |
| `Queues.RunWithinBudget` | src/queue.cpp:6-38 | in every run of operations the queued bytes never exceed the budget |
| `Queues.FirstInFirstOut` | src/queue.cpp:6-90 | in every run of puts at both ends, pops and erasures, the items put at the back that have left, followed by those still queued, are the items put at the back in the order they were put, evicted and erased ones missing |
| `Queues.FrontLeavesFirst` | src/queue.cpp:16-18 | after any run, an accepted front put is what the next pop takes |
| `Memories.AcceptedApart` | src/router_core.cpp:1114-1134 | an id is let through again only after at least N other acceptances |
| `Memories.RecentIds.Push` | src/router_core.cpp:556-569 | list and set are the last N of the accepted-id log after every push |
| `Memories.RecentIds.Admit` | src/router_core.cpp:1114-1134 | a packet goes on exactly when its id is not among the last N accepted |
| `Memories.ReturnRoutes.Note` | src/router_core.cpp:127-139 | the id moves to the end, the oldest leave, the map loses exactly what the list loses; keys stay listed, list duplicate-free and within the cap |
| `Memories.NotedAllBounded` | src/router_core.cpp:586-590 | after any history: no repeats, within the cap, newest last |
| `Memories.NotedAllIsRecent` | src/router_core.cpp:127-139 | after any history the capped list is the end of the uncapped list of all ids by recency: evicting on the way loses nothing that evicting at the end would keep |
| `Memories.RecencyOrder` | src/router_core.cpp:127-139 | that list is in the order in which its ids were noted last |
| `Memories.RecencyMembers` | src/router_core.cpp:127-139 | and holds every noted id once |
| `Calendar.DaysCountCalendar` | src/core.cpp:655-664 | day numbers count the calendar: the next civil day has the next number |
| `Calendar.DateRoundTrip` | src/core.cpp:605-664 | every valid date converts to days and back |
| `Calendar.DaysRoundTrip` | src/core.cpp:605-664 | every day number splits into a valid date and converts back |
| `Calendar.EpochIsDayZero` | src/core.cpp:655-664 | 1 January 1970 is day 0 |
| `Calendar.MsRoundTrip` | src/core.cpp:605-629 | every 64-bit instant splits into a valid civil time that converts back to it |
| `Calendar.CivilRoundTrip` | src/core.cpp:689-702 | a valid civil time converts and splits back, cut to milliseconds, if and only if its instant is from 1970 on and fits 64 bits |
| `Calendar.ModernRoundTrip` | src/core.cpp:689-702 | in particular every valid time from 1970 on that fits |
| `NetworkTime.NeverBackwards` | src/router_api.cpp:250-294 | in every run of reads and polls under a monotone clock, returned times never decrease, also across expiry and adoption of sources, while no time leaves 64 bits |
| `NetworkTime.StepRaises` | src/router_api.cpp:308-377 | no read or poll lowers the time line |
| `NetworkTime.NeverBackwardsExact` | src/router_api.cpp:250-294 | from all states in which neither the anchor nor a source stands above m at a moment, all runs up to a horizon return nondecreasing reads if and only if m plus the time to the horizon stays below 2^64; the failing run reads m and then 0 |
| `NetworkTime.TimeSync.FindBest` | src/router_api.cpp:263-280 | the scan in any order finds a best eligible source, or there is none |
| `NetworkTime.TimeSync.Read` | src/router_api.cpp:250-294 | the read is a step of the relation the runs are made of, whose failover and steady steps the next rows spell out |
| `NetworkTime.FailoverTime` | src/router_api.cpp:258-290 | a read that changes the followed source returns the later of the old line and what the new source told plus the time since; the new source is fresh and best by priority, then by last sign of life, and followed with its own priority |
| `NetworkTime.FailoverHappens` | src/router_api.cpp:258-290 | with the followed source lost and a fresh one known, the read changes it |
| `NetworkTime.FailoverRunsOn` | src/router_api.cpp:258-293 | a later read, the new source still fresh, runs on from that value by the local clock |
| `NetworkTime.SteadyTime` | src/router_api.cpp:256-293 | with nothing lost a read returns the line and changes nothing |
| `NetworkTime.TimeSync.PollNow` | src/router_api.cpp:308-377 | new state and queued action of a poll, as the next rows spell out |
| `NetworkTime.PollQueues` | src/router_api.cpp:315-376 | which role queues what and when: announces with own priority and network time, requests to the followed or discovered source, stamps taken; nothing when disabled |
| `NetworkTime.PollForgets` | src/router_api.cpp:318-333 | exactly the sources silent for too long are forgotten, the followed one with its priority |
| `NetworkTime.TimeSync.DropExpired` | src/router_api.cpp:318-333 | the erase loop forgets exactly the expired sources |
| `Sha256.DigestChunks` | src/upstream_api_compat.cpp:283-346 | for any cut of a message into chunks, updating and finalising gives the fold over the padded whole |
| `Sha256.Hasher.Update` | src/upstream_api_compat.cpp:286-313 | buffer, state and bit count hold the message so far |
| `Sha256.Hasher.Finalize` | src/upstream_api_compat.cpp:315-340 | one or two padded blocks complete the digest of the whole message |
| `Sha256.PadMeaning` | src/upstream_api_compat.cpp:315-330 | a padded message is the message, byte 0x80, zeros, and eight bytes spelling its bit length, most significant first, in as few blocks as hold it |
| `Sha256.OutputSpells` | src/upstream_api_compat.cpp:331-339 | the digest bytes spell the state words, most significant byte first |
| `Crypto.HmacChunks` | src/upstream_api_compat.cpp:409-432 | the MAC depends on the joined message only |
| `Crypto.HmacIsRfc2104` | src/upstream_api_compat.cpp:409-432 | the MAC is that of section 2 of RFC 2104 for a key filled up with zeros |
| `Crypto.ConstantTimeEq` | src/upstream_api_compat.cpp:434-448 | the accumulating comparison decides equality |
| `Crypto.StreamInvolution` | src/upstream_api_compat.cpp:468-494 | applying the keystream twice gives the input back |
| `Crypto.MakeBlock` | src/upstream_api_compat.cpp:480-489 | one keystream block is the HMAC of label, key id, nonce, associated data and counter |
| `Crypto.BlockInput` | src/upstream_api_compat.cpp:480-489 | the hashed message byte for byte |
| `Crypto.LabelsSpell` | src/upstream_api_compat.cpp:450-487 | the labels are the ASCII names |
| `Crypto.LittleEndian64` | src/upstream_api_compat.cpp:471-486 | key id and counter are written least significant byte first |
| `Crypto.TagInput` | src/upstream_api_compat.cpp:450-461 | the tag is the first 16 bytes of the HMAC of label, key id, nonce, data and ciphertext |
| `Crypto.DomainsApart` | src/upstream_api_compat.cpp:450-494 | keystream blocks and tags never hash the same message |
| `Crypto.ApplyStream` | src/upstream_api_compat.cpp:468-494 | the loop computes one HMAC per counter value and xors every byte with its keystream byte |
| `Crypto.Seal` | src/upstream_api_compat.cpp:2396-2433 | unknown key, short buffers, or ciphertext and tag |
| `Crypto.Open` | src/upstream_api_compat.cpp:2435-2474 | the stream is applied only under a matching tag |
| `Crypto.SealThenOpen` | src/upstream_api_compat.cpp:2396-2474 | opening what was sealed gives the plaintext; any other tag is refused |

## Left out

- Legacy (non-v4) frames and the in-place header rewriter: the serializers never write such frames.
- ZSTD, the CRC polynomial, the sender hash and the SHA-256 rounds: parameters; collisions are not
  reasoned about.
- Frame writers and readers are functions over a cursor; their loops (ULEB128, bitmap) are methods.
  Reading past the end through pointer aliasing is therefore not representable.
- Liveness of the link and any bound on end-to-end retransmission: the code gives neither.
- Eviction of queued control packets by the byte budget, and a receiver's refusal of a header-less frame whose
  id it remembers, appear in the link model as loss; `LinkLimits.Orderly` singles out the runs without repeats.
- A valid user type below 100 whose wire number is that of another stream's type: the peer's acks for the one
  then reach the window of the other (`Schema.NumbersShared` says when). Streams are of runtime types.
- Packet ids are hashes: the receiving node may acknowledge any 64-bit id end to end.
- The table an end-to-end ack is meant for.
- Queue order at the receive entry point, where the current packet goes to the front and released ones
  to the back: ordered delivery is stated where ingress hands packets on.
- Removing a side in the middle of a link run, and schema or tuning changes during a run.
- Which of several boards with one id survives normalising: the sort is not stable, so the code leaves it
  open; the functions keep the first, and the results that need one board to an id say so.
- Arriving time packets (announce, request, response), which set network time to what they carry: runs of network
  time are made of reads and polls.
- Several clock readings within one operation: an operation reads the clock once.
- The signed 32-bit overflow of the day-number formula (`year - 1`, `year - 399`) for years within 400 of -2^31:
  years are unbounded in the model.
- Overflow of byte counters at 2^64 and failing allocations.
- Built-in type and endpoint names are constructors instead of strings.
- The reference to a caller's output buffer in seal and open, and the accelerated crypto provider.
- Relay copies of the router's templates, except for the relay's own board in `Advertise`.
- Handler retries, error packets, managed variables, P2P ports and streams, JSON, the C interface, locks.
