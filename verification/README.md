# Scuba Chat protocol stack: a verified model

Scuba Chat's backend is a small protocol stack for a handful of nodes on a slow, lossy channel: distance-vector
routing, fragmentation, a packed 32-bit header, stop-and-wait transport with relays, controlled flooding, and a
byte-stream framing between the client and its server. This project models these parts in Dafny and proves what
they guarantee over whole runs. `dafny verify dfyconfig.toml` checks all of it.

| file | models |
|---|---|
| `PacketHeader.dfy` | the packed header, its masks, and its four bytes |
| `DistanceVector.dfy` | one routing table as a value: what an echo and a tick do to it, and the invariant of a node |
| `AddressCollision.dfy` | what an echo with the hearer's own address does to the table |
| `VectorRoutingProtocol.dfy` | the routing object that updates its table in place, and echoes as packets |
| `RoutingNetwork.dfy` | a network of such tables with late, repeated and lost echoes: safety over all runs |
| `RoutingConvergence.dfy` | convergence to hop distances in a static topology |
| `RoutingAgeing.dfy` | silent neighbours and ghost routes die, with echoes that are heard late |
| `HopByHop.dfy` | frames and their acknowledgements follow the tables along shortest ways |
| `Fragmentation.dfy`, `Reassembly.dfy`, `MessageRoundTrip.dfy` | cutting a message, buffering its fragments, and the whole way through |
| `MultihopRelay.dfy` | frames on the wire and the rewriting of the next hop |
| `StopAndWaitSender.dfy`, `StopAndWaitReceiver.dfy` | the two ends of the transport, as values and as objects |
| `UnicastSession.dfy` | sender, receiver, other sessions, and a channel that loses, reorders and duplicates |
| `UnicastOutcomes.dfy` | how a session can end: completed, or acknowledged without being delivered |
| `UnicastDuplicates.dfy`, `SevenDeliveries.dfy` | how often a message is delivered when the channel does not duplicate, and that this happens |
| `Flooding.dfy`, `BroadcastDelivery.dfy`, `BroadcastMessage.dfy` | one flooded fragment in any topology; how often flooding delivers; a whole message |
| `Framing.dfy` | the byte-stream automaton and its encoder |
| `FiniteSets.dfy` | a shared fact about set sizes |

Where the source updates an object in place, the model has a class with those fields; each method is proved equal
to a function on values, and the properties are proved about these functions. Where several threads interleave, the
model is a set of atomic steps and the properties hold for every sequence of steps.

## Main results

- Every reachable routing table has costs of at most 5, names only live neighbours as next hops, and, in a static
  topology, advertises only costs of real walks, whatever old echoes arrive.
- In a static topology r rounds in which every node hears every neighbour make every cost up to r exact, and three
  rounds make whole tables exact, if no row expires meanwhile: no node ticks more than T < 40 times, and at the start
  every row has more than T ticks to live. What a sender then emits reaches its destination in as many hops as that is
  away, and so does the acknowledgement on its way back.
- A neighbour that is silent for 40 ticks is purged. If echoes are heard fewer than D ticks of their sender late,
  four phases of D and then 40 ticks of every other node remove every finite cost to a silent node; echoes that are
  heard at the moment they are built need no D.
- A unicast message is delivered byte for byte or not at all. That every fragment was acknowledged means that the
  message was delivered, in every run, exactly when no other session uses its message id. With routes and without
  losses every session can be completed. Over a channel without duplication it delivers at most seven times, and it
  can deliver seven times.
- A flooded fragment is transmitted at most 4(N + 1) times, the flood ends, and without losses it reaches all nodes. A
  node to which the id is new delivers a flooded message exactly once, when it has heard all its fragments, in any order.
- Fragment, serialize, parse and reassemble is the identity exactly for messages of at most 7168 bytes; the framing
  of the byte stream exactly for data of at most 255 bytes; broadcasts are delivered at most once per message id
  exactly while fragment numbers stay below 256.

## Where the code falls short of its documentation

- The repository's README (line 119) calls the number of retries configurable; the code fixes it to 7
  (`src/backend/transport/StopAndWaitSender.cpp:64`). The model follows the code.
- The barrier against counting up compares with 7, but no cost ever exceeds 5: `CostsAreBounded` shows that it never
  rejects an offer. A cost byte of 255, which no correct node sends, passes it as an offer of 0 (`EchoOnAnyTable`).
- A route of cost 5 counts as unreachable, so hearing it again counts as a change although no row changes
  (`ChangesMadeIff`).
- Message ids are one byte in the sender and three bits on the wire, fragment numbers 16 and 11 bits: a message can be
  acknowledged in full exactly when its id is below 8 and its numbers are below 2048 (`AckedInFullIff`). From id 8 on
  no fragment is ever acknowledged, whatever was sent before (`LargeIdsAreNeverAcked`).
- Acknowledgements are matched by message id and fragment number alone: if a session between two other nodes has the
  same id, its acknowledgements can end all waits of a message that never left (`StrangersAcksSuffice`,
  `SharedIdLosesMessage`). Distinct ids are exactly what is needed (`AckedMeansDeliveredIff`).
- Hearing a neighbour does not renew its row: however often it is heard, a live neighbour is lost, with all routes
  through it, after exactly the ticks that its row had left, 40 at most (`HeardNeighbourIsLost`).
- The recovery from an address collision leaves the routing table in order exactly when a table had been received
  before and the generator yields another address (`RecoveryKeepsOrderIff`); about half of the time it keeps the old one.
- Fragment numbers have 11 bits on the wire and 8 in the reassembler: longer messages lose all but their last block
  (`InOrderDelivery`), and a flooded message can be delivered twice (`CutNumbersDeliverTwice`).

## Model

| member | source | states |
|---|---|---|
| PacketHeader.PackThenMask | src/utils/packet_header.h:10-17 | The eight masks are disjoint: each field can be read back from the packed word, cut to its width |
| PacketHeader.WireLayout | src/utils/packet_header.h:10-17 | Which bits of which of the four bytes hold each field |
| PacketHeader.MaskThenPack | src/utils/packet_header.h:10-17 | The eight masks cover the word: packing the masked fields of any word gives that word |
| PacketHeader.DecodeEncode | src/utils/packet_header.cpp:11-58 | Decoding an encoded header, with any payload behind it, returns every field modulo its width; it is the same header exactly when all fields fit |
| PacketHeader.EncodeDecodeWord | src/utils/packet_header.cpp:11-34 | Encoding the decoded fields of any 32-bit word returns the word |
| PacketHeader.EncodeDecode | src/utils/packet_header.cpp:25-58 | Any packet of at least four bytes is its decoded header, encoded, followed by its payload |
| DistanceVector.FirstTickSettles | src/backend/routing/VectorRoutingProtocol.cpp:460-530 | A constructed node that hears nothing is settled by the first tick in which it has its address, after any number of the up to 30 waiting ticks: own cost 0, everything else unreachable, and 39 ticks left less those it waited |
| DistanceVector.EchoOnAnyTable | src/backend/routing/VectorRoutingProtocol.cpp:86-302 | What an echo with any cost bytes does to every row of any table, with all numbers written out, and to the neighbour flags: it marks its sender and no other |
| DistanceVector.TickOnAnyTable | src/backend/routing/VectorRoutingProtocol.cpp:488-575 | What a tick does to every row of any table, which rows it purges, and which neighbours stay active |
| DistanceVector.EchoRowSpec | src/backend/routing/VectorRoutingProtocol.cpp:125-191 | Per row an echo either installs the sender with its cost plus one and a full time-to-live, exactly when the offer is finite and cheaper or the row is unreachable or expired, or changes nothing; the barrier accepts every offer |
| DistanceVector.LiveRowStable | src/backend/routing/VectorRoutingProtocol.cpp:173-191 | A live direct row is left unchanged by every echo: it is not even refreshed |
| DistanceVector.SenderLive | src/backend/routing/VectorRoutingProtocol.cpp:121-150 | After an echo its sender is an active neighbour behind a direct, unexpired row |
| DistanceVector.RegisterEchoInv | src/backend/routing/VectorRoutingProtocol.cpp:86-268 | Processing any well-formed echo of another node keeps the node invariant: bounded costs, and every next hop is a live neighbour |
| DistanceVector.TickRow | src/backend/routing/VectorRoutingProtocol.cpp:488-575 | A tick keeps a row, one time-to-live older, exactly when the direct row of its next hop outlives the tick; otherwise the row becomes unreachable |
| DistanceVector.TickInv | src/backend/routing/VectorRoutingProtocol.cpp:488-575 | A tick with its purge keeps the node invariant |
| AddressCollision.CollideRow | src/backend/routing/VectorRoutingProtocol.cpp:105-191 | Every row after a collision, whether or not the node moves: the old address is a direct neighbour, a new one is the own row, and every other row is replaced by the echo's offer or left alone |
| AddressCollision.CollisionKeepsOrderIff | src/backend/routing/VectorRoutingProtocol.cpp:125-150 | The recovery keeps the node invariant exactly when it follows a first table, draws another address, and the echo replaces every row that led through that address |
| AddressCollision.RecoveryKeepsOrderIff | src/backend/routing/VectorRoutingProtocol.cpp:125-150 | For the addresses that the generator can yield, the old one or one that was unreachable or has expired, the recovery keeps the node invariant exactly when it follows a first table and the address is another one |
| RoutingNetwork.CostsAreBounded | src/backend/routing/VectorRoutingProtocol.cpp:162-191 | In every reachable state all costs in tables and in flight are at most 5, and no offer ever exceeds the barrier of 7 |
| RoutingNetwork.NextHopsAreLive | src/backend/routing/VectorRoutingProtocol.cpp:488-575 | In every reachable state a row with a next hop names an active neighbour with a direct row of cost 1 and positive time-to-live, so the purge leaves no row behind a dead neighbour |
| RoutingNetwork.RoutesAreSound | src/backend/routing/VectorRoutingProtocol.cpp:121-191 | Over all runs of a static topology a finite cost c for v at u has a real neighbour as next hop, from which a walk of c - 1 links leads to v |
| RoutingConvergence.DistancesAreShort | src/backend/routing/VectorRoutingProtocol.h:16-17 | Among four addresses every hop distance is at most 3, so infinity is never a distance |
| RoutingConvergence.Convergence | src/backend/routing/VectorRoutingProtocol.cpp:125-191 | From any reachable state, if no node ticks more than T < 40 times and all rows have more than T ticks to live, after r rounds of heard echoes the cost of every pair at distance at most r is the hop distance |
| RoutingConvergence.ExactAfterThreeRounds | src/backend/routing/VectorRoutingProtocol.cpp:125-191 | After three such rounds in such a window a cost is finite exactly for reachable nodes, and is then the hop distance |
| RoutingAgeing.SilentNeighbourIsPurged | src/backend/routing/VectorRoutingProtocol.cpp:488-575 | After 40 unpaused ticks without an echo of i, with any echoes of others in between, no row leads through i, until an echo of i is processed |
| RoutingAgeing.HeardNeighbourIsLost | src/backend/routing/VectorRoutingProtocol.cpp:206-221 | Whatever is heard, the neighbour included, a live neighbour stays live for exactly the unpaused ticks its row has to live, at most 40; it is then unreachable and no row leads through it |
| RoutingAgeing.Drained | src/backend/routing/VectorRoutingProtocol.cpp:154-191 | Once every other node has ticked D times, nothing that can still be heard offers less than the lowest cost held |
| RoutingAgeing.Expired | src/backend/routing/VectorRoutingProtocol.cpp:488-575 | After 40 more ticks of every other node, with no cheaper offer to hear, no row of the lowest cost is left |
| RoutingAgeing.PhaseRaises | src/backend/routing/VectorRoutingProtocol.cpp:488-575 | With echoes heard fewer than D ticks of their sender late, or at once: if every other node ticks D and then 40 times and no echo of v is heard, the cheapest cost any of them holds for v rises by one |
| RoutingAgeing.GhostRoutesDie | src/backend/routing/VectorRoutingProtocol.cpp:154-575 | After c such phases no other table holds a cost of at most c for the silent node, whatever the others exchange and whatever was in flight at first; after four no finite cost is left |
| VectorRoutingProtocol.EchoRoundTrip | src/backend/routing/VectorRoutingProtocol.cpp:41-82 | Reading a built echo yields its header, addressed to the given destination with message id 1 and length 8, and exactly one row per destination, with the advertised cost and the sender as next hop |
| VectorRoutingProtocol.EchoOnWire | src/backend/routing/VectorRoutingProtocol.cpp:325-349 | The header of a built echo has the given destination and next hop, its sender, fragment 0, no more fragments, message id 1, type 0 and length 8 |
| VectorRoutingProtocol.ReceivedRow | src/backend/routing/VectorRoutingProtocol.cpp:57-65 | The table read from any echo has the pairs that begin before the declared length, and of several for one destination the last |
| VectorRoutingProtocol.SilentEchoChangesNothing | src/backend/routing/VectorRoutingProtocol.cpp:274-312 | An echo that is not counted as a change leaves every row but the node's own as it was |
| VectorRoutingProtocol.ChangesMadeIff | src/backend/routing/VectorRoutingProtocol.cpp:125-265 | The flag that starts a broadcast is true exactly if the sender was unreachable, or for another node the row changes, a better route is known than the one offered, the sender lost a route that leads through it, or a route of cost 5 is installed once more |
| VectorRoutingProtocol.Route.constructor | src/backend/routing/VectorRoutingProtocol.cpp:424-439 | A new row has the given fields |
| VectorRoutingProtocol.Route.Age | src/backend/routing/VectorRoutingProtocol.cpp:491-511 | The time-to-live falls by one but not below zero, and the own row has cost 0 |
| VectorRoutingProtocol.Route.Merge | src/backend/routing/VectorRoutingProtocol.cpp:162-265 | One advertised cost against one row in place: the new row is the merge of the two, and the reported change is exactly the one the code counts |
| VectorRoutingProtocol.Protocol.constructor | src/backend/routing/VectorRoutingProtocol.cpp:421-445 | A new table has four distinct rows, all unreachable with a full time-to-live, and no neighbours |
| VectorRoutingProtocol.Protocol.ProcessPayload | src/backend/routing/VectorRoutingProtocol.cpp:41-70 | The table read from an echo has the pairs of its payload, later ones replacing earlier ones |
| VectorRoutingProtocol.Protocol.BuildCustomEcho | src/backend/routing/VectorRoutingProtocol.cpp:322-353 | The built packet is the echo header followed by destination and cost of each row in order |
| VectorRoutingProtocol.Protocol.SetOwnRow | src/backend/routing/VectorRoutingProtocol.cpp:105-112 | The own row is set before the first echo or once the wait is over, and nothing else changes |
| VectorRoutingProtocol.Protocol.Greet | src/backend/routing/VectorRoutingProtocol.cpp:105-150 | The sender becomes active, and a direct neighbour if it was unreachable, which is reported |
| VectorRoutingProtocol.Protocol.RegisterActiveNeighbour | src/backend/routing/VectorRoutingProtocol.cpp:578-581 | Adds one node to the active neighbours and changes nothing else |
| VectorRoutingProtocol.Protocol.PutNeighbourAsInactive | src/backend/routing/VectorRoutingProtocol.cpp:594-599 | Removes one node from the active neighbours and changes nothing else |
| VectorRoutingProtocol.Protocol.RegisterEcho | src/backend/routing/VectorRoutingProtocol.cpp:86-318 | The in-place update of table and flags is the echo step of the table as a value, or the collision step if the echo has the own address; the returned flag is true exactly when the code counts a change |
| VectorRoutingProtocol.Protocol.MergeCollision | src/backend/routing/VectorRoutingProtocol.cpp:121-298 | The steps and the loop for an echo with the own address equal the simultaneous update; the loop skips the old address |
| VectorRoutingProtocol.Protocol.MergeCollisionRows | src/backend/routing/VectorRoutingProtocol.cpp:154-268 | After the loop every row but that of the old address is merged |
| VectorRoutingProtocol.Protocol.Collision | src/backend/routing/VectorRoutingProtocol.cpp:105-150 | The own row, the neighbour flag, the drawn address and the direct row of the old address are set, in this order |
| VectorRoutingProtocol.Protocol.HandleCollision | src/backend/routing/VectorRoutingProtocol.cpp:696-715 | Only after a first table the drawn address becomes the own one, with cost 0 and a full time-to-live |
| VectorRoutingProtocol.Protocol.MergeAll | src/backend/routing/VectorRoutingProtocol.cpp:121-304 | The loop over all destinations, in place and in order, equals the simultaneous update of all rows, and the flag says whether the code counts a change |
| VectorRoutingProtocol.Protocol.MergeRows | src/backend/routing/VectorRoutingProtocol.cpp:154-268 | After the loop every row of another node is merged, and a change is reported exactly when the code counts one for some row |
| VectorRoutingProtocol.Protocol.MergeRow | src/backend/routing/VectorRoutingProtocol.cpp:162-265 | Changes the row of one destination only |
| VectorRoutingProtocol.Protocol.InactiveNeighboursHandling | src/backend/routing/VectorRoutingProtocol.cpp:542-575 | The nested loops purge exactly the rows behind a direct neighbour that is inactive, as one simultaneous step |
| VectorRoutingProtocol.Protocol.DropRoutesThrough | src/backend/routing/VectorRoutingProtocol.cpp:554-564 | Every row behind the given hop becomes unreachable, all others stay |
| VectorRoutingProtocol.Protocol.DropRoute | src/backend/routing/VectorRoutingProtocol.cpp:556-561 | One row becomes unreachable if it leads through the given hop |
| VectorRoutingProtocol.Protocol.Tick | src/backend/routing/VectorRoutingProtocol.cpp:488-519 | A turn of the ticking loop is the ageing of all rows followed by the purge, or nothing while paused |
| VectorRoutingProtocol.Protocol.AgeRow | src/backend/routing/VectorRoutingProtocol.cpp:491-511 | Ages one row and deactivates its node when it expires |
| Fragmentation.FragmentMessage | src/backend/fragmentation/Fragmenter.cpp:5-33 | Returns the chunks of the message in order, each with its header |
| Fragmentation.FragmentShape | src/backend/fragmentation/Fragmenter.cpp:15-31 | Every chunk has 1 to 28 bytes, its header says how many and holds the given addresses, id, type and the number, and more fragments are announced by all but the last |
| Fragmentation.ChunksAreASlice | src/backend/fragmentation/Fragmenter.cpp:15-18 | Consecutive chunks join to a slice of the message: no byte is lost, repeated or moved |
| Fragmentation.ChunksToTheEnd | src/backend/fragmentation/Fragmenter.cpp:13-18 | The chunks from one on join to the rest of the message, so all chunks join to the message |
| Reassembly.Reassembler.InsertFragment | src/backend/fragmentation/Reassembler.cpp:9-63 | The map with its placeholder entries, the flags and the result are updated as the insertion on values says |
| Reassembly.CheckComplete | src/backend/fragmentation/Reassembler.cpp:35-41 | True exactly when every fragment below the total is there and not empty |
| Reassembly.JoinAll | src/backend/fragmentation/Reassembler.cpp:48-56 | The two loops return the fragments below the total, joined in order |
| Reassembly.InsertOnAnyBuffer | src/backend/fragmentation/Reassembler.cpp:9-63 | What an insertion does to any buffer: its parts, the entries that printing creates, total, flags, what is delivered and when, and that other messages are left alone |
| Reassembly.InsertRefines | src/backend/fragmentation/Reassembler.cpp:15-60 | For one message the buffer refines the set of received numbers: the arrival that completes the set delivers the message byte for byte and frees the buffer, every other delivers nothing and adds its number |
| Reassembly.NoMixedDelivery | src/backend/fragmentation/Reassembler.cpp:9-63 | With distinct ids, after any interleaving, repetition and loss of fragments and any number of fills and erasures, an arrival delivers its own whole message exactly when it completes it, and otherwise nothing |
| Reassembly.DeliveriesUseCopies | src/backend/fragmentation/Reassembler.cpp:48-59 | Each delivery of a message uses up one copy of each of its fragments |
| Reassembly.InOrderDelivery | src/backend/fragmentation/Reassembler.cpp:9-63 | All fragments of a message of any size, in order, deliver its last block of at most 256 fragments; that is the message exactly up to 7168 bytes |
| MultihopRelay.WireRoundTrip | src/utils/packet_header.cpp:11-58 | A serialized frame decodes to itself with every header field modulo its width |
| MultihopRelay.ForwardingKeepsTheRest | src/backend/multihop-relay/MultihopRelay.cpp:20-30 | On the wire forwarding rewrites the next hop from the table and nothing else, over any number of relays |
| StopAndWaitReceiver.Disposition | src/backend/transport/StopAndWaitReceiver.cpp:56-123 | Every frame for this node and every new broadcast fragment is inserted as far as its header says it is long, and what becomes whole is delivered with its sender; a frame for this node is answered by exactly one acknowledgement with its ids if there is a route; a new broadcast is remembered and sent on four times with nothing but its next hop changed; a frame to pass on is passed on with the table's next hop; nothing else has an effect |
| StopAndWaitReceiver.StopAndWaitReceiver.constructor | src/backend/transport/StopAndWaitReceiver.cpp:17-18 | A new receiver has seen no broadcast and buffers nothing |
| StopAndWaitReceiver.StopAndWaitReceiver.OnPacketReceived | src/backend/transport/StopAndWaitReceiver.cpp:56-123 | State, packets sent and messages delivered change as the reaction to the decoded frame says; packets below four bytes change nothing |
| StopAndWaitReceiver.StopAndWaitReceiver.SendAckPacket | src/backend/transport/StopAndWaitReceiver.cpp:29-54 | Sends one acknowledgement with the given numbers if there is a route, and nothing otherwise |
| StopAndWaitReceiver.StopAndWaitReceiver.SendBroadcast | src/backend/transport/StopAndWaitReceiver.cpp:126-146 | Sends the frame four times, without a next hop |
| StopAndWaitSender.StopAndWait | src/backend/transport/StopAndWaitSender.cpp:49-116 | In every run a fragment is emitted only after each earlier one was acknowledged, emitted seven times, unroutable or flooded; no fragment is emitted more than seven times |
| StopAndWaitSender.AtMostSevenEach | src/backend/transport/StopAndWaitSender.cpp:64-116 | In every run a message of n fragments causes at most 7n emissions |
| StopAndWaitSender.PassesOnExactly | src/backend/transport/StopAndWaitSender.cpp:24-47 | An acknowledgement for another node whose next hop is this one is sent to the next hop of the route, with nothing else changed, if there is a route, whether or not its ids match; in every other case nothing is sent |
| StopAndWaitSender.BeginSetsIds | src/backend/transport/StopAndWaitSender.cpp:50-97 | With every fragment its ids become those that acknowledgements are matched with; the flag is cleared only for one with a route |
| StopAndWaitSender.EmissionsFollowTheirRoute | src/backend/transport/StopAndWaitSender.cpp:49-104 | In every run each frame emitted for a fragment is that fragment with this node as source, its length, and the next hop that the table had when the sender began with it; a broadcast has next hop 0 |
| StopAndWaitSender.SendOneOutcome | src/backend/transport/StopAndWaitSender.cpp:57-121 | A unicast fragment is emitted once per wait up to the first in which an acknowledgement with its ids arrives, and is then acknowledged, or else seven times and given up; a broadcast four times; one without a route not at all |
| StopAndWaitSender.SenderTerminates | src/backend/transport/StopAndWaitSender.cpp:49-116 | Until all fragments are done some step is possible, and every step of the sender lowers the work left, which acknowledgements do not raise |
| StopAndWaitSender.AckMatchesInRange | src/backend/transport/StopAndWaitSender.cpp:42-46 | The acknowledgement of a fragment, as it comes off the wire, matches it exactly when its message id is below 8 and its number below 2048 |
| StopAndWaitSender.AckedFragmentsFit | src/backend/transport/StopAndWaitSender.cpp:42-46 | In every run only fragments with an id below 8 and a number below 2048 are acknowledged |
| StopAndWaitSender.LargeIdsAreNeverAcked | src/backend/transport/StopAndWaitSender.cpp:42-46 | With message ids of 8 or more no fragment is ever acknowledged, whatever the sender did before and whatever arrives off the wire |
| StopAndWaitSender.StrangersAcksSuffice | src/backend/transport/StopAndWaitSender.cpp:24-47 | For every routable message whose ids fit the header there is a run in which only acknowledgements between two other nodes of the network arrive and every fragment ends as acknowledged |
| StopAndWaitSender.AckedInFullIff | src/backend/transport/StopAndWaitSender.cpp:24-116 | A routable message can be acknowledged in full, by what comes off the wire, exactly when its id is below 8 and all its fragment numbers are below 2048 |
| StopAndWaitSender.SendAllIsPlay | src/backend/transport/StopAndWaitSender.cpp:49-121 | The loops of the sender, for any script of arriving acknowledgements, are one of the runs that the other results quantify over |
| StopAndWaitSender.StopAndWaitSender.constructor | src/backend/transport/StopAndWaitSender.cpp:17-18 | A new sender is idle and has sent nothing |
| StopAndWaitSender.StopAndWaitSender.HandleAckPacket | src/backend/transport/StopAndWaitSender.cpp:24-47 | The packets sent and the flag change as the step on values says: an acknowledgement for another node is passed on, a matching one is recorded, both or either |
| StopAndWaitSender.StopAndWaitSender.SendFragments | src/backend/transport/StopAndWaitSender.cpp:49-55 | All fragments are handled one after another, and the packets sent are those of the abstract run |
| StopAndWaitSender.StopAndWaitSender.SendWithRetry | src/backend/transport/StopAndWaitSender.cpp:57-121 | One fragment is flooded, found unroutable, or tried until acknowledged or seven attempts are used up |
| StopAndWaitSender.StopAndWaitSender.Prepare | src/backend/transport/StopAndWaitSender.cpp:64-97 | The ids become current; a broadcast is sent; a unicast packet gets its next hop from the table and the flag is cleared |
| StopAndWaitSender.StopAndWaitSender.TryOnce | src/backend/transport/StopAndWaitSender.cpp:99-116 | One attempt emits the packet once and ends by an acknowledgement or a timeout |
| StopAndWaitSender.StopAndWaitSender.EmitPacket | src/backend/transport/StopAndWaitSender.cpp:104-107 | The prepared packet is handed to the send function |
| StopAndWaitSender.StopAndWaitSender.SendBroadcast | src/backend/transport/StopAndWaitSender.cpp:124-143 | Sends the frame four times, without a next hop |
| UnicastSession.ReceiverStep | src/backend/transport/StopAndWaitReceiver.cpp:99-120 | Whatever admissible frame arrives, the receiver's buffer holds exactly fragments of the session's message, and each of its acknowledgements is for a fragment that has arrived |
| UnicastSession.AckStep | src/backend/transport/StopAndWaitSender.cpp:42-46 | An acknowledgement that matches the current fragment implies that the receiver has it |
| UnicastSession.EndToEndDelivery | src/backend/transport/StopAndWaitSender.cpp:24-121 | In every run over a channel that loses, reorders and duplicates, beside sessions with other ids, what is delivered under the session's id is the original message; if all fragments end as acknowledged it has been delivered |
| UnicastOutcomes.SessionCompletes | src/backend/transport/StopAndWaitSender.cpp:49-121 | With routes in both tables there is, from every start, a run without losses or repetitions in which every fragment is acknowledged and the message delivered, in five events a fragment |
| UnicastOutcomes.SharedIdLosesMessage | src/backend/transport/StopAndWaitSender.cpp:42-46 | If another session has the same id there is a run in which nothing reaches the receiver, only acknowledgements between two other nodes reach the sender, and every fragment ends as acknowledged |
| UnicastOutcomes.AckedMeansDeliveredIff | src/backend/transport/StopAndWaitSender.cpp:42-46 | In all runs being acknowledged in full means having been delivered, exactly when no other session has the message id |
| UnicastDuplicates.RunUses | src/backend/transport/StopAndWaitReceiver.cpp:105-120 | At every moment of every run each delivery of the message has used up an arrival of its fragment 0 |
| UnicastDuplicates.AtMostSevenDeliveries | src/backend/transport/StopAndWaitSender.cpp:64-116 | In every run over a channel that does not duplicate, the message is handed to the application at most seven times |
| SevenDeliveries.SevenDeliveriesHappen | src/backend/transport/StopAndWaitSender.cpp:64-116 | From every start with a route there is a run over a channel that does not duplicate in which the message is handed to the application exactly seven times |
| Flooding.Reacts | src/backend/transport/StopAndWaitReceiver.cpp:66-84 | A seen broadcast fragment has no effect; a new one is marked and relayed as the same frame, four times |
| Flooding.OriginBurst | src/backend/transport/StopAndWaitSender.cpp:124-143 | The sender starts a flood with four copies of one broadcast frame |
| Flooding.FloodBound | src/backend/transport/StopAndWaitReceiver.cpp:66-84 | In any topology of N nodes, in any order and with any losses, a fragment is transmitted at most 4(N + 1) times |
| Flooding.FloodTerminates | src/backend/transport/StopAndWaitReceiver.cpp:69-84 | Every effective move lowers the nodes yet to see the fragment, or the transmissions due, or the copies in flight |
| Flooding.FloodCoverage | src/backend/transport/StopAndWaitReceiver.cpp:69-84 | Without losses, when the flood is over, every node at one or more hops from the origin has seen the fragment |
| BroadcastDelivery.AtMostOncePerId | src/backend/transport/StopAndWaitReceiver.cpp:69-120 | In broadcast traffic with fragment numbers below 256 a node delivers at most one message per id over its whole life |
| BroadcastDelivery.CutNumbersDeliverTwice | src/backend/transport/StopAndWaitReceiver.cpp:112-120 | Any two fragment numbers that are multiples of 256, under one message id, are delivered as two messages |
| BroadcastDelivery.AtMostOnceIff | src/backend/transport/StopAndWaitReceiver.cpp:69-120 | At most one delivery per id in every run holds for fragment numbers below a limit exactly when the limit is at most 256 |
| BroadcastDelivery.AcceptedBound | src/backend/transport/StopAndWaitReceiver.cpp:69-84 | Over any run at most 8 * 2048 broadcast frames are accepted |
| BroadcastMessage.BroadcastIsSent | src/backend/transport/StopAndWaitSender.cpp:124-143 | Whatever a sender emits of a broadcast message is, on the wire, the fragment with the number that the log has, from this node, to all |
| BroadcastMessage.BroadcastIsDelivered | src/backend/transport/StopAndWaitReceiver.cpp:66-120 | A node to which the id is new, whatever fragments of the broadcast it hears, in any order, with repetitions and between other broadcasts, has delivered the message exactly once if it has heard all of them, and not at all before |
| Framing.DataReceiver.constructor | src/backend/network/DataReceiver.cpp:28-32 | The automaton starts outside a message |
| Framing.DataReceiver.ReceiveData | src/backend/network/DataReceiver.cpp:33-102 | A received buffer is fed byte by byte, and its messages are pushed in order |
| Framing.DataReceiver.ReceiveByte | src/backend/network/DataReceiver.cpp:42-97 | One byte changes the state and pushes what the automaton says |
| Framing.ChunkingIsInvisible | src/backend/network/DataReceiver.cpp:26-104 | The pushed messages do not depend on how the stream is cut into buffers |
| Framing.FramingRoundTrip | src/backend/network/DataReceiver.cpp:26-104 | Any sequence of data of at most 255 bytes and control messages, in any pieces, is pushed exactly as sent |
| Framing.FirstByteIsType | src/utils/MessageType.h:4-15 | A message on the stream begins with the number of its type |
| Framing.BytesAreTypes | src/backend/network/DataReceiver.cpp:45-81 | Outside a message a byte is read as the number of a type; other bytes are skipped |
| Framing.SendRoundTripIff | src/backend/network/Client.cpp:106-122 | One data message comes back exactly when it has at most 255 bytes |
| HopByHop.FramesTakeShortestWays | src/backend/transport/StopAndWaitReceiver.cpp:87-97 | After r rounds in such a window, in a symmetric topology, a frame sent to the next hop in the table is relayed, by whatever the nodes in between are doing, to its destination in exactly as many hops as it is away, for distances up to r |
| HopByHop.EmittedFragmentsTravel | src/backend/transport/StopAndWaitSender.cpp:82-107 | Whatever a node in such a network emits of a message, reading its own table, travels to its destination in that way |
| HopByHop.AcknowledgementsTravelBack | src/backend/transport/StopAndWaitSender.cpp:24-39 | The acknowledgement of a received fragment travels, passed on by the sending sides of the nodes in between, to the fragment's source in as many hops as that is away |
| MessageRoundTrip.FragmentOnTheWire | src/backend/fragmentation/Fragmenter.cpp:20-28 | Every serialized fragment decodes to a fragment of its message, and to itself exactly when number, addresses and type fit the header |
| MessageRoundTrip.RoundTrip | src/backend/fragmentation/Reassembler.cpp:9-63 | Fragment, serialize, parse and reassemble returns a non-empty message exactly when it has at most 7168 bytes, and leaves no buffer behind |

## Left out

- How an address is chosen (`gen_random_addr`, the address file): the drawn address is a parameter. Runs of a network start with settled, unique addresses in 1..4. Echoes that reach a node before it has its address are not modelled.
- Threads, locks and sleeps: each message handler, tick and wait is atomic. The sender sets the current ids and, after the route lookup, clears the acknowledgement flag; the model does both in one step, because an acknowledgement in between is lost in either case.
- The order in which detached send threads reach the channel: the objects log the calls of the send function, and the channel of `UnicastSession` may reorder them.
- The pause flag is a field of the routing object that `Tick` reads; pausing by the sender and the pause timeout are not modelled.
- Broadcast timers, `start_broadcasting_thread`, and the views of reachable nodes and used addresses: a node may broadcast at any time, and `RegisterEcho` returns the flag that starts a broadcast.
- The routing table is shared by pointers in the source; the transport of the model reads a snapshot of next hops.
- VectorRoutingProtocol.Protocol.RegisterEcho: an echo without a row for some other destination, or from an address outside 1..4, dereferences a null pointer in the source and is excluded by its precondition.
- StopAndWaitReceiver.StopAndWaitReceiver.OnPacketReceived: a packet shorter than its declared payload, or to be forwarded to a destination without a row, is undefined behaviour in the source and excluded by its precondition.
- StopAndWaitSender.StopAndWaitSender.HandleAckPacket: the same for an acknowledgement below four bytes or without a row for its destination.
- UnicastSession.EndToEndDelivery: message ids of 8 or more and more than 256 fragments are excluded, and so are ids of other sessions; `AckedInFullIff`, `InOrderDelivery` and `AckedMeansDeliveredIff` say what happens for them.
- The send and message callbacks are assumed to be set; `Delivery` records, beside the arguments of the message callback, the message id that the source only prints.
- Reassembler: the write to the fragment set after its buffer was erased, and payloads of 65536 bytes or more, for which a 16-bit loop counter would never end. Payloads off the wire have at most 31 bytes.
- Console output, except that the printing loop of the reassembler creates map entries.
- Sockets, the user interface, `MessageQueue`, `BlockingQueue`, `ChannelState` and `MediumAccessControl`: easy members, or outside the protocols.
- Control bytes are produced by the server, which is not part of this repository; their encoding is taken from the receiving automaton.
