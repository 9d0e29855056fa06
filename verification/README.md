# ipxbox protocol engines in Dafny

ipxbox joins DOS-era IPX games over modern networks. Behind its sockets sit a handful of small
protocol engines, and this project models seven of them and proves what they promise over whole
runs:

- **Quake reliable sharder** (`Sharder.dfy`, `SharderRuns.dfy`, `SharderHandlers.dfy`): relays one stop-and-wait
  stream as another whose fragments fit a 1024-byte MTU, and holds back the ack of each message
  until the far side has acked all of it.
- **Doom tic window** (`Doom.dfy`, `DoomStream.dfy`): a ring of 32 slots that resends recent tic
  commands, with tic numbers rebuilt from their low byte.
- **ipxpkt** (`IpxPkt.dfy`, `IpxPktRouter.dfy`): Ethernet frames cut into IPX packets and put
  together again in a table of 16 partial frames with eviction.
- **Learning switch** (`Routing.dfy`, `Switch.dfy`, `SwitchDevices.dfy`) and the **addressable
  network** around it (`Addressable.dfy`, `AddressableDevices.dfy`). `Tunnel.dfy` puts ipxpkt on
  top of it and follows an Ethernet frame from one router to another.
- **PPP option negotiation** for LCP and IPXCP (`Negotiation.dfy`, `Convergence.dfy`, `Polling.dfy`,
  `NegotiationHandlers.dfy`).
- **LCP codec** (`Lcp.dfy`).
- **GRE sequencing** (`Gre.dfy`, `GreSession.dfy`).

Each engine comes in two parts. The first is a state, a step function for each handler and a
`Run` over any list of events, with the theorems stated over every run. The second is the code
in its own imperative form, a class or a method with loops, whose contracts tie each handler to
the step function. A handler is one atomic step. Time, random draws, the order in which a map is
walked and the success of a send callback are inputs, so the theorems hold for all of them.
History that the code does not keep (what was sent, accepted or delivered) is carried along so
that runs can be spoken of.

## Findings

Some promises hold only in part; each has its exact condition here.

- An end-of-message fragment that finds the sharder's queue empty and brings no bytes is never
  relayed, and the connection stalls for good; with bytes to carry it, the drain takes exactly
  ceil(n / 1016) + 1 acks (`SharderRuns.DrainExactly`, `SharderRuns.EmptyEomStalls`).
- The sharder does not check that upstream waits for its acks. Exactly two kinds of fragment sent
  ahead can spoil message boundaries: one that carries bytes, or a second end of message, while an
  end of message is still in the queue; and an end of message before the last one is acked. After
  any other, boundaries hold (`SharderRuns.ExactlyHarmfulBreaks`). A run of three messages that
  come out as two shows it (`SharderRuns.PipeliningMergesMessages`).
- Bytes can be left in the sharder's queue with nothing outstanding downstream, so that no ack will
  set them going. With an upstream in step this is so exactly when the last data packet had its ack
  refused while nothing was outstanding: the handler returns before it sends
  (`SharderRuns.BytesAreStranded`, `SharderRuns.AckRefusedStrands`).
- A frame of more than 255 fragments never comes out of reassembly, because the fragment count is
  one byte (`IpxPkt.DeliverableWhenShort`).
- The per-port index of the routing table is not exact. An address that moves leaves a stale entry
  at its old port, since `portID` is reassigned before the old port is looked up, and a deleted
  port keeps its entries (`Routing.RecordKeepsIndexExact`, `Routing.DeleteKeepsIndexExact`). The
  comment in the code says the old port is deassociated. Lookups are right all the same
  (`Routing.LookupIsOwner`).
- Negotiation with a cooperative peer converges exactly when every non-negotiable option has a
  value to suggest; without one a peer can be kept waiting through any number of requests
  (`Convergence.NegotiationConverges`).
- An LCP option list survives the wire exactly when each option has at most 253 bytes of data
  (`Lcp.OptionsRoundTrip`).
- The length field of an LCP message is read only as a lower bound, so that padding is parsed as
  data, unlike section 5 of RFC 1661: a valid packet is read as itself if and only if it has no
  padding (`Lcp.PaddingIsParsed`, `Lcp.PaddingBecomesOption`).
- A frame sent over GRE leaves the highest number received acknowledged if and only if that number
  is not zero: a session that has received only number zero never acknowledges it
  (`Gre.HighestIsAcked`, `Gre.ZeroIsNeverAcked`).
- A Doom packet that reaches tic number 2^32 - 1 keeps its handler in the window loop for ever, and
  no other packet does (`Doom.FitsExactly`). In a new game one packet whose start byte is 255 is
  enough (`Doom.FirstPacketHangs`).
- A Doom tic is recovered from its low byte exactly when it is within 64 of the window head, or
  within 191 and in another block of 256 (`Doom.ExpandTicNumRecovers`).

## Model

| member | source | states |
|---|---|---|
| Sharder.MessageRoundTrip | module/qproxy/protocol.go:57-76 | decoding an encoded message gives it back, flags included, whatever its length field wraps to |
| Sharder.MessageLayout | module/qproxy/protocol.go:57-68 | byte for byte: flags, the length of the whole packet, the sequence number, all big-endian, then the payload |
| Sharder.PacketsCarryTheirLength | module/qproxy/protocol.go:57-157 | in every run, for arbitrary peers, each packet handed to a callback carries its own length: acks 8 bytes, fragments 9 to 1024 |
| Sharder.OutcomesMean | module/qproxy/protocol.go:161-233 | a packet is passed on exactly when the bits of its second byte make it unreliable or of the other direction, and then changes nothing; an error means a short packet or a send that was made and failed |
| Sharder.FragmentsAreFull | module/qproxy/protocol.go:115-145 | a packet from either side sends at most one fragment, and that one has 1016 bytes or leaves nothing queued |
| Sharder.BytesConserved | module/qproxy/protocol.go:115-197 | for arbitrary packets from both sides, accepted payloads equal the payloads sent downstream followed by the queue; fragments on both sides are numbered consecutively modulo 2^32, those sent are non-empty and fit 1024 bytes |
| SharderRuns.MessageBoundariesSurvive | module/qproxy/protocol.go:115-233 | while upstream sends no fragment that does harm and downstream acks only what it was sent, the messages sent downstream are the first of those received upstream, byte for byte, and at most the newest is missing unless the link is stuck on an empty end of message |
| SharderRuns.ExactlyHarmfulBreaks | module/qproxy/protocol.go:176-183 | after any honest run and any data packet, some honest continuation has downstream sent a message that upstream did not send if and only if the packet is next in sequence and either follows a queued end of message with bytes or with another end of message, or ends a message before the last end is acked |
| SharderRuns.PipeliningMergesMessages | module/qproxy/protocol.go:176-183 | a run of three one-byte messages that come out as two, in which only the second is sent out of turn and every other event is honest |
| SharderRuns.StopAndWaitIsInStep | module/qproxy/protocol.go:147-233 | a run in which upstream sends fragment k only once it holds k acks, and downstream acks only what it was sent, is in step and honest, repeats within a lap included |
| SharderRuns.AcksAreCoupled | module/qproxy/protocol.go:147-233 | with peers in step, at most one fragment is unacked on either side, on upstream's exactly while an end of message is held back; acks name fragments 0, 1, 2, ..., at most the newest message is missing downstream, and upstream holds acks for exactly the messages downstream has acked to the end |
| SharderRuns.BytesAreStranded | module/qproxy/protocol.go:185-194 | over every honest run, bytes wait with nothing outstanding downstream if and only if they were sent ahead behind an end of message since acked, or the last data packet had its ack refused while nothing was outstanding; with peers in step only the latter |
| SharderRuns.AckRefusedStrands | module/qproxy/protocol.go:185-191 | a stop-and-wait run that leaves its bytes so |
| SharderRuns.DrainExactly | module/qproxy/protocol.go:115-233 | after any honest run, n > 0 queued bytes after the end of a message need exactly ceil(n/1016)+1 in-order acks to be relayed whole and the held ack released; with none queued no honest run gets there |
| SharderRuns.StalledForever | module/qproxy/protocol.go:115-145 | an end of message held with an empty queue is never sent or acked in any honest continuation |
| SharderRuns.EmptyEomStalls | module/qproxy/protocol.go:176-194 | an end of message without bytes reaches that state |
| SharderHandlers.ReliableSharder.constructor | module/qproxy/protocol.go:235-245 | init gives the empty connection |
| SharderHandlers.ReliableSharder.StateTransition | module/qproxy/protocol.go:89-94 | moves only from the named state |
| SharderHandlers.ReliableSharder.SendUpstream | module/qproxy/protocol.go:96-103 | the callback is given the encoded message |
| SharderHandlers.ReliableSharder.SendDownstream | module/qproxy/protocol.go:105-113 | the callback is given the encoded message |
| SharderHandlers.ReliableSharder.SendNext | module/qproxy/protocol.go:115-145 | computes Sharder.SendNext, the step the run theorems are about, and fails only if it sent and the callback failed |
| SharderHandlers.ReliableSharder.SendAck | module/qproxy/protocol.go:147-157 | computes Sharder.SendAck; the ack counts as sent even if the callback fails |
| SharderHandlers.ReliableSharder.Ingest | module/qproxy/protocol.go:176-183 | computes Sharder.Accept: only the next fragment in sequence joins the queue |
| SharderHandlers.ReliableSharder.ReceiveFromUpstream | module/qproxy/protocol.go:161-197 | computes Sharder.FromUpstream and its outcome, send failures included; the object stays the run of the packets it was given |
| SharderHandlers.ReliableSharder.Advance | module/qproxy/protocol.go:217-230 | computes Sharder.Acked: the ack of an end of message releases upstream's ack, any other lets more go |
| SharderHandlers.ReliableSharder.ReceiveFromDownstream | module/qproxy/protocol.go:201-233 | computes Sharder.FromDownstream and its outcome, send failures included; the object stays the run of the packets it was given |
| SharderHandlers.ReliableSharder.PacketsAreSound | module/qproxy/protocol.go:96-113 | everything ever given to the callbacks of a sharder carries its own length, and fits 1024 bytes |
| Doom.ExpandTicNumIsNear | network/doom/protocol.go:35-44 | the result has the given low byte and is within 191 of the base modulo 2^32 |
| Doom.ExpandTicNumRecovers | network/doom/protocol.go:35-44 | exactly which tics come back from their low byte: those within 64 of the base, or within 191 and in another block of 256 |
| Doom.KnownRun | network/doom/stream.go:60-72 | the run of tics sent is the longest of known consecutive tics that ends before the given tic, capped at five and at the window tail |
| Doom.FitsExactly | network/doom/stream.go:45-51 | a packet can be stored if and only if the window loop, as 32-bit steps from any window, ends at each of its tics |
| Doom.FirstPacketHangs | network/doom/stream.go:45-51 | in a new game a packet of one tic with start byte 255 never leaves the loop |
| Doom.RepliesAreTrue | network/doom/stream.go:23-98 | for a sender whose commands are a function of game and tic, every packet sent on, in every run and across resets, carries exactly the true commands for its tics and ends with the last tic received |
| Doom.RepliesKeepTheRest | network/doom/stream.go:77-98 | every reply keeps checksum, retransmission number and player; a packet with the setup bit or no tics comes back unchanged and leaves the game alone, any other is taken into it |
| Doom.HeadIsNewest | network/doom/stream.go:30-56 | in every run the window head is one past the newest tic received in the game |
| Doom.InputIsContained | network/doom/stream.go:77-98 | a packet of at most five tics, none more than 32 behind the window head, is contained in the packet sent on, as its last commands |
| DoomStream.Stream.constructor | network/doom/stream.go:14-19 | a new stream is a new game |
| DoomStream.Stream.HandleSetupPacket | network/doom/stream.go:23-28 | forgets the game although the slots keep their contents; the stream stays the run of what it received |
| DoomStream.Stream.AdvanceTo | network/doom/stream.go:45-51 | moves the window up to a tic, dropping from the tail, and the ring still holds the log |
| DoomStream.Stream.AddTic | network/doom/stream.go:38-52 | stores one tic, or skips it below the tail, and the ring still holds the log |
| DoomStream.Stream.AddNewTics | network/doom/stream.go:30-56 | stores all tics of a packet: the ring holds the log extended by them |
| DoomStream.Stream.Slot | network/doom/stream.go:64-65 | the slot of a tic in the window holds its logged command, or nothing if there is none |
| DoomStream.Stream.TicsToSend | network/doom/stream.go:60-72 | the count found by reading slots is Doom.KnownRun of the log |
| DoomStream.Stream.JoinTics | network/doom/stream.go:90-95 | the slots read hold the logged commands of their tics |
| DoomStream.Stream.BuildReply | network/doom/stream.go:84-97 | the packet built from the ring is the one the unbounded log gives |
| DoomStream.Stream.HandleGamePacket | network/doom/stream.go:77-98 | the ring refines the unbounded log for every packet, with head - tail at most 32; the header fields other than the tic range are kept, setup packets and packets without tics come back unchanged, and the stream stays the run of what it received |
| IpxPkt.HeaderRoundTrip | module/ipxpkt/header.go:26-44 | a header comes back exactly when it satisfies 1 <= fragment <= count |
| IpxPkt.FragmentsFlatten | module/ipxpkt/fragment.go:114-127 | the fragments of a frame, put end to end, are the frame |
| IpxPkt.FragmentAt | module/ipxpkt/fragment.go:118-125 | every fragment has 1 to 510 bytes |
| IpxPkt.FragmentSizes | module/ipxpkt/fragment.go:114-127 | every fragment but the last has 510 bytes, the last 1 to 510 |
| IpxPkt.Wrapped | module/ipxpkt/router.go:94-135 | the length in the IPX header of each packet sent counts the header and the whole payload |
| IpxPkt.PacketsAreAddressed | module/ipxpkt/router.go:93-144 | byte for byte what is sent: from the router's node to the address the frame begins with, network zero, socket 0x6181, checksum 0xffff, 32 zeros, fragment number, count, packet number little-endian, and the piece |
| IpxPkt.FragmentsAreRecognised | module/ipxpkt/router.go:41-56 | a packet is taken for a fragment if and only if its socket is 0x6181, it has 36 bytes and 1 <= fragment <= count; its key and body are read from the header and the bytes after |
| IpxPkt.WholeFramesPass | module/ipxpkt/fragment.go:84-88 | a frame of one fragment comes out at once whatever the table holds and leaves it alone, and so is left by packets that are no fragments |
| IpxPkt.WrappedUnwraps | module/ipxpkt/router.go:93-144 | each packet sent unwraps to its fragment, index, count and key |
| IpxPkt.EvictionShrinks | module/ipxpkt/fragment.go:62-82 | a flush removes at least one frame and only frames that were there |
| IpxPkt.FlushSpares | module/ipxpkt/fragment.go:59-82 | a flush can remove a frame if and only if it was not heard of for more than ten seconds, or there is no such frame and none was last heard earlier |
| IpxPkt.TableStaysSmall | module/ipxpkt/fragment.go:84-110 | in every run, for any map order, at most 16 partial frames, each of 2 to 255 slots with one filled and one empty |
| IpxPkt.PartialFramesStay | module/ipxpkt/fragment.go:84-110 | in every run a partial frame leaves the table only when it is complete or in a flush, and only if 16 are held |
| IpxPkt.TimesAreLastHeard | module/ipxpkt/fragment.go:36-42 | in every run the time kept for a partial frame is that of the last fragment filed into it |
| IpxPkt.FrameRoundTrip | module/ipxpkt/fragment.go:36-110 | fragments of a frame of 2 to 255, in any order, repeated and amid any other packets, yield exactly the frame when the last missing one arrives and nothing otherwise, while the frame is not evicted |
| IpxPkt.InOrderCompletes | module/ipxpkt/fragment.go:36-110 | fragments that arrive in order, 1 to 255 of them, yield the frame with the last and nothing before, whatever else the table holds |
| IpxPkt.DeliverableWhenShort | module/ipxpkt/router.go:111-131 | a frame can be delivered if and only if it has at most 255 fragments |
| IpxPktRouter.FragmentFrame | module/ipxpkt/fragment.go:114-127 | the loop computes IpxPkt.Fragments |
| IpxPktRouter.FillFragment | module/ipxpkt/fragment.go:36-53 | fills a slot and joins all of them when none is missing |
| IpxPktRouter.FrameReassembler.constructor | module/ipxpkt/fragment.go:55-57 | starts empty |
| IpxPktRouter.FrameReassembler.Flush | module/ipxpkt/fragment.go:62-82 | whatever order the table is walked in, removes exactly the expired frames or, if there are none, one frame with minimal lastRX |
| IpxPktRouter.FrameReassembler.Reassemble | module/ipxpkt/fragment.go:84-110 | computes IpxPkt.Reassemble for a lawful eviction |
| IpxPktRouter.Router.constructor | module/ipxpkt/router.go:146-153 | starts with an empty table and counter zero |
| IpxPktRouter.Router.WritePacketData | module/ipxpkt/router.go:93-144 | writes the packets of the frame in order under the next packet number, up to the first refusal, each to the address the frame begins with and from the router's own |
| IpxPktRouter.Router.UnwrapFrame | module/ipxpkt/router.go:41-61 | computes IpxPkt.Receive, errors included |
| Routing.StepKeepsIndexed | network/ipxswitch/table.go:59-134 | every routed address stays in the index of its own port |
| Routing.LookupIsOwner | network/ipxswitch/table.go:59-134 | after any run with fresh port numbers, a lookup gives the last port that the network and node address were heard from, whatever the socket, and that was not deleted since, else broadcast; the broadcast and null addresses have none |
| Routing.RecordIsFresh | network/ipxswitch/table.go:44-95 | the fast path changes no lookup, and the recorded address is routed here with a time under five seconds old |
| Routing.RecordKeepsIndexExact | network/ipxswitch/table.go:73-94 | recording keeps the index exact if and only if the address does not move from another port |
| Routing.DeleteKeepsIndexExact | network/ipxswitch/table.go:122-134 | deleting keeps the index exact if and only if the port had no addresses |
| Routing.StaleEntry | network/ipxswitch/table.go:82-92 | a two-port run that leaves a stale entry |
| SwitchDevices.RoutingTable.constructor | network/ipxswitch/table.go:136-141 | starts empty |
| SwitchDevices.RoutingTable.CheckDestPort | network/ipxswitch/table.go:44-55 | true exactly when the address is routed to the port and was heard under five seconds ago |
| SwitchDevices.RoutingTable.Record | network/ipxswitch/table.go:59-95 | computes Routing.Record although the removal from the other port hits the new one |
| SwitchDevices.RoutingTable.LookupDest | network/ipxswitch/table.go:99-111 | computes Routing.LookupDest |
| SwitchDevices.RoutingTable.AddPort | network/ipxswitch/table.go:113-120 | the port has an empty index |
| SwitchDevices.RoutingTable.DeletePort | network/ipxswitch/table.go:122-134 | for any order of keys, removes the indexed addresses routed to the port |
| Switch.DeliveryIsSound | network/ipxswitch/ipxswitch.go:50-111 | over every run, reads are a FIFO prefix of what the pipe took in with at most 16 left, no node gets its own write, no write enters a pipe twice, and a switched write enters only the learned port's pipe |
| Switch.ClosedNodesAreSilent | network/ipxswitch/ipxswitch.go:34-42 | after Close, reads give nothing and nothing is delivered |
| Switch.WriteReaches | network/ipxswitch/ipxswitch.go:74-111 | a write enters exactly the pipes of open nodes other than the writer, only the last-heard port of the destination if one is known, that are not full |
| Switch.NodesAreNumbered | network/ipxswitch/ipxswitch.go:60-72 | in every run nodes are numbered from zero in the order they are opened |
| Switch.WriteFailsWhenFull | network/ipxswitch/ipxswitch.go:50-111 | after any run, a write reports an error if and only if one of the nodes it is for has 16 packets unread |
| Switch.PipeErrors | network/pipe/pipe.go:56-90 | after any run, a pipe refuses a write as closed exactly if its node is closed, as full exactly if it is open with 16 packets unread, and tells its reader so exactly if closed |
| Switch.TableIsRun | network/ipxswitch/ipxswitch.go:36-72 | the switch uses fresh port numbers and its table is a run of the routing table |
| Switch.TakeKeeps | network/pipe/pipe.go:74-90 | a read keeps FIFO order and takes nothing in |
| Switch.TakeGivesOldest | network/pipe/pipe.go:74-90 | a read gives the oldest packet of an open pipe that has one, and otherwise changes nothing |
| SwitchDevices.Pipe.constructor | network/pipe/pipe.go:94-99 | starts empty and open |
| SwitchDevices.Pipe.Close | network/pipe/pipe.go:43-51 | closes once and for all |
| SwitchDevices.Pipe.WritePacket | network/pipe/pipe.go:56-70 | appends, or reports a closed or full pipe and changes nothing |
| SwitchDevices.Pipe.ReadPacket | network/pipe/pipe.go:74-90 | gives the oldest packet of an open pipe, an error exactly on a closed one, and neither while it would wait |
| SwitchDevices.Network.constructor | network/ipxswitch/ipxswitch.go:114-119 | starts without nodes |
| SwitchDevices.Network.NewNode | network/ipxswitch/ipxswitch.go:60-72 | a node with the next number, its own pipe and an empty port |
| SwitchDevices.Network.AddNode | network/ipxswitch/ipxswitch.go:61-69 | no other node or pipe is touched |
| SwitchDevices.Network.Close | network/ipxswitch/ipxswitch.go:36-42 | removes the node and its routes and closes its pipe |
| SwitchDevices.Network.ReadPacket | network/ipxswitch/ipxswitch.go:45-47 | reads the node's own pipe, its error included, and leaves the others |
| SwitchDevices.Network.Deliver | network/ipxswitch/ipxswitch.go:84-91 | one pipe is offered the packet and no other changes |
| SwitchDevices.Network.BroadcastPacket | network/ipxswitch/ipxswitch.go:74-96 | in any order, every open node but the writer is offered the packet once; an error is reported if and only if one refused |
| SwitchDevices.Network.ForwardPacket | network/ipxswitch/ipxswitch.go:99-111 | floods or switches according to the table; an error is reported if and only if a node that was offered the packet refused it |
| SwitchDevices.Network.WritePacket | network/ipxswitch/ipxswitch.go:50-53 | computes Switch.WritePacket: learn, then forward; an error is reported if and only if a target of the packet refused it |
| Addressable.AddressesAreDistinct | network/addressable/addressable.go:31-54 | open nodes have distinct addresses in every run |
| Addressable.AddressesAreLocal | network/addressable/addressable.go:37-43 | in every run every address given out begins with 02, and is neither the broadcast nor the null address |
| Addressable.AddressesAreFreed | network/addressable/addressable.go:40-52 | in every run the addresses that cannot be given out are exactly those of the open nodes |
| Addressable.RouteLeadsToOwner | network/addressable/addressable.go:85-98 | a route learned for the address of an open node points at that node |
| Addressable.UnicastIsPrivate | network/addressable/addressable.go:62-91 | a unicast write is read by at most one node, flooded or switched |
| Addressable.ReadDelivers | network/addressable/addressable.go:62-83 | a read delivers the first waiting packet that is meant for the node, if there is one, and nothing else |
| Addressable.NothingIsLostOnReading | network/addressable/addressable.go:62-83 | in every run, what a node has read is exactly what left its pipe, in order, without the packets for another network or for an address that is neither its own nor the broadcast address |
| Addressable.SourcesAreTrue | network/addressable/addressable.go:85-91 | in every run, each packet read was written by another node, whose address is the source it names |
| Tunnel.FramesArePrivate | module/ipxpkt/router.go:93-144 | in every run of an addressable network, the packets of a frame that is not a broadcast are read only by the node whose address it begins with, and come from the node they name |
| Tunnel.FrameCrosses | module/ipxpkt/router.go:93-144 | from any run, a frame written by one node to the address of another with room for its packets ends up, after enough reads, as exactly those packets in order at the end of what that node has read |
| Tunnel.FrameIsRestored | module/ipxpkt/router.go:41-61 | those packets, given to a reassembler with room, are put together to the frame with the last of them and to nothing before |
| AddressableDevices.Network.constructor | network/addressable/addressable.go:112-117 | starts without nodes |
| AddressableDevices.Network.PickAddress | network/addressable/addressable.go:37-52 | the first drawn address that is unused |
| AddressableDevices.Network.NewNode | network/addressable/addressable.go:31-54 | a new inner node with an unused, locally administered address |
| AddressableDevices.Network.ReadPacket | network/addressable/addressable.go:62-83 | the loop computes Addressable.ReadPacket; the packet returned is the first waiting one meant for the node and is the one delivered, none is returned exactly when there is none, and an error exactly when the pipe is closed |
| AddressableDevices.Network.WritePacket | network/addressable/addressable.go:85-91 | refuses exactly the packets not sent from the node's own address on network zero, and otherwise reports the inner network's error |
| AddressableDevices.Network.Close | network/addressable/addressable.go:93-98 | frees the address and closes the inner node |
| Negotiation.FixedOptionsStay | ppp/negotiate.go:24-45 | in every run the option sets and validators stay, non-negotiable values never change and required ones are never lost, on either side |
| Negotiation.NakIsAllOrNothing | ppp/negotiate.go:173-234 | a Nak or Reject sets all its values or none, none exactly when one is unknown or unacceptable, and then negotiation fails |
| Negotiation.ErrorsFreeze | ppp/negotiate.go:236-242 | after an error nothing changes any more |
| Negotiation.RemoteIsLastAcked | ppp/negotiate.go:138-149 | the remote side is complete exactly when a request was acked, and its values are those of the last one acked |
| Negotiation.SendsMatch | ppp/negotiate.go:144-169 | the replies sent are exactly those to the requests handled, in order and with their identifiers, every request is handled unless there is an error, and the last request sent carries the values now held |
| Negotiation.RequestsAreNumbered | ppp/negotiate.go:162-169 | in every run our requests are numbered 1, 2, 3, ... modulo 256 |
| Negotiation.ErrorsMean | ppp/negotiate.go:64-272 | an error comes exactly from a send that was made and failed, a Nak or Reject with an unknown or unacceptable value, or a poll that is due after the fifth request |
| Negotiation.FirstRequests | ppp/session.go:209-262 | LCP opens with our magic number as option 5, IPXCP with network and node number zero as options 1 and 2 |
| Convergence.RepliesInOrder | ppp/negotiate.go:76-137 | a Reject repeats the unknown options as they came; a Nak lists the unacceptable ones in the order of the request and then the missing ones, each once |
| Convergence.RepliesMean | ppp/negotiate.go:76-150 | when each reply is given and what it names: unknown options, the request itself, or the unacceptable and missing options |
| Convergence.NegotiationConverges | ppp/negotiate.go:76-150 | over every run from any negotiator without an error, one of the first three requests of a cooperative peer is acked, whatever happens in between, if and only if every non-negotiable option has a value; otherwise a cooperative peer can make any number of requests without an ack |
| Convergence.LcpAnswers | ppp/session.go:215-220 | at any point of LCP a request is acked if and only if it names a magic number, whatever it is, and nothing else, and answered with a suggestion, four zeros until the first Ack, if and only if it is empty |
| Convergence.IpxcpAnswers | ppp/session.go:263-271 | at any point of IPXCP a request is acked if and only if it names the assigned node number and nothing else, and otherwise advised of that number or rejected |
| Convergence.IpxcpGivesWay | ppp/session.go:255-262 | in IPXCP a Nak or Reject ends negotiation if and only if it names an option other than network and node number |
| Convergence.LcpGivesNoWay | ppp/session.go:209-214 | in LCP a Nak or Reject ends negotiation unless it is empty or a Nak of our own magic number |
| Convergence.AdviceStays | ppp/negotiate.go:138-142 | that condition is neither lost nor gained during a run |
| Negotiation.LcpNeedsMagicNumber | ppp/session.go:205-250 | LCP completes only with a request that names a magic number and no other option |
| Convergence.SessionsConverge | ppp/session.go:205-280 | with the settings this server uses for LCP and IPXCP, from any point of any run, three requests of a cooperative peer with no error in between leave its side complete and an Ack sent for one of the three |
| Negotiation.IpxcpAssignsAddress | ppp/session.go:253-293 | IPXCP completes only with a request that names the assigned node number and no other option |
| Polling.SilentPeer | ppp/negotiate.go:261-288 | a silent peer gets at most five requests numbered 1 to 5; negotiation fails if and only if there are six polls of which each is a timeout or more after the one before, so that with polls at most a gap apart it fails with five requests sent, between five timeouts and five timeouts and gaps after the first poll |
| Polling.CompleteWhenAnswered | ppp/negotiate.go:250-251 | in every run our side is complete if and only if a Configure-Ack was received before any error |
| Polling.AnsweredPeerIsLeftAlone | ppp/negotiate.go:273-288 | after that no poll, whenever it comes, sends a request or fails |
| Polling.AckInTime | ppp/negotiate.go:261-288 | a Configure-Ack after some polls completes negotiation for good if and only if those polls do not include six of which each is a timeout or more after the one before |
| NegotiationHandlers.Negotiator.constructor | ppp/negotiate.go:273-275 | starts at request number one without an error |
| NegotiationHandlers.Negotiator.FindUnknown | ppp/negotiate.go:78-83 | the options not in remoteOptions, in order |
| NegotiationHandlers.Negotiator.NewValues | ppp/negotiate.go:95-102 | a value for every remote option, the last one given or none |
| NegotiationHandlers.Negotiator.FindBad | ppp/negotiate.go:103-109 | for any map order, the options whose values are refused |
| NegotiationHandlers.Negotiator.Advice | ppp/negotiate.go:111-130 | suggestions for bad options in request order, then each missing one once |
| NegotiationHandlers.Negotiator.HandleConfigureRequest | ppp/negotiate.go:76-150 | computes Negotiation.HandleRequest |
| NegotiationHandlers.Negotiator.RequestOptions | ppp/negotiate.go:153-161 | the request carries exactly the local options that have a value, each once |
| NegotiationHandlers.Negotiator.SendConfigureRequest | ppp/negotiate.go:152-169 | computes Negotiation.SendRequest; what is recorded as sent is what the list handed to the callback says |
| NegotiationHandlers.SetValues | ppp/negotiate.go:203-207 | sets exactly the given values |
| NegotiationHandlers.Negotiator.ApplyValues | ppp/negotiate.go:173-210 | computes Negotiation.ApplyNewValues: validates all before setting any |
| NegotiationHandlers.Negotiator.RecvPacket | ppp/negotiate.go:236-257 | computes Negotiation.Step on a packet |
| NegotiationHandlers.Negotiator.MaybeSendRequest | ppp/negotiate.go:261-271 | computes Negotiation.Step on a poll |
| NegotiationHandlers.Negotiator.Poll | ppp/negotiate.go:276-287 | one turn of the loop, done when acked or failed |
| Lcp.OptionsRoundTrip | ppp/lcp/lcp.go:74-102 | printing then parsing gives the list back if and only if every option has at most 253 bytes |
| Lcp.ParseThenPrint | ppp/lcp/lcp.go:74-102 | parsing then printing gives back every accepted byte string |
| Lcp.ParserAccepts | ppp/lcp/lcp.go:74-93 | the parser accepts exactly what prints from such a list |
| Lcp.ParserErrors | ppp/lcp/lcp.go:74-93 | the parser reports a short message if and only if past some well-formed options one is cut off, and slices out of range if and only if past some one claims a length below two |
| Lcp.UnmarshalOptions | ppp/lcp/lcp.go:74-93 | the loop computes Lcp.ParseOptions, with its error and the out-of-range slice |
| Lcp.MarshalOptions | ppp/lcp/lcp.go:95-102 | the loop computes Lcp.PrintOptions |
| Lcp.MessageRoundTrip | ppp/lcp/lcp.go:171-218 | a message comes back if and only if its data is of its type's kind and its options fit |
| Lcp.MessageReprint | ppp/lcp/lcp.go:171-218 | printing a parsed message restores every byte but the length field |
| Lcp.MessageBytes | ppp/lcp/lcp.go:104-197 | byte for byte what a parsed message says: type, identifier, a length that is not above the packet's, and the data of each type with its numbers big-endian |
| Lcp.ShortMessages | ppp/lcp/lcp.go:104-197 | exactly which packets are refused: those below four bytes, their length field or the fixed part of their type, and those whose options fail |
| Lcp.PaddingIsParsed | ppp/lcp/lcp.go:171-197 | a packet whose own bytes are valid is read as they alone would be if and only if nothing follows them |
| Lcp.PaddingBecomesOption | ppp/lcp/lcp.go:171-197 | an empty Configure-Request with two bytes of padding is read as one with an option |
| Gre.ReadsAreComplete | ppp/pptp/gre.go:40-81 | frames are handled in queue order, and exactly those with data and no higher number before them are returned |
| Gre.ReadsAreOrdered | ppp/pptp/gre.go:40-81 | sequence numbers of returned frames never go down |
| Gre.ReadReturns | ppp/pptp/gre.go:64-81 | a read returns the frame it logs as returned, and without a result it has emptied the queue |
| Gre.ArrivalsAreQueued | ppp/pptp/gre.go:190-202 | in every run a frame that arrives is queued if and only if the session was not closed and fewer than 16 frames wait |
| Gre.PayloadsAreSent | ppp/pptp/gre.go:83-99 | in every run every payload handed over goes out in a frame of its own, whole and in order |
| Gre.AcksIncrease | ppp/pptp/gre.go:83-99 | acks strictly increase and name the highest number received |
| Gre.SendsAreNumbered | ppp/pptp/gre.go:83-99 | non-empty frames are numbered 0, 1, 2, ... and empty ones not; an ack goes out exactly when something above the last ack was received, and it names the highest number received, which is not zero |
| Gre.HighestIsAcked | ppp/pptp/gre.go:83-99 | once a numbered frame was received, a frame sent leaves the highest number acknowledged if and only if that number is not zero |
| Gre.ZeroIsNeverAcked | ppp/pptp/gre.go:93-96 | a run that receives number zero and answers without an ack |
| GreSession.Session.constructor | ppp/pptp/gre.go:156-163 | starts with all counters zero |
| GreSession.Session.Enqueue | ppp/pptp/gre.go:190-202 | queues up to 16 frames and drops the rest |
| GreSession.Session.RecvPacket | ppp/pptp/gre.go:40-62 | discards exactly the late frames |
| GreSession.Session.Read | ppp/pptp/gre.go:64-81 | the loop computes Gre.Read |
| GreSession.Session.SendPacket | ppp/pptp/gre.go:83-99 | computes Gre.Send |
| GreSession.Session.Close | ppp/pptp/gre.go:115-125 | no frame is queued afterwards |

## Left out

- Delivery under loss in the sharder: the code never retransmits and does not repeat acks, so there is nothing to promise.
- Packets of fewer than two bytes in the sharder, and frames of fewer than six in ipxpkt: the code indexes them without a check.
- DoomStream.Stream.HandleGamePacket: requires Fits, since the code does not return from any other packet (Doom.FitsExactly). The same holds for AddTic, AdvanceTo and AddNewTics and for the runs of Doom.dfy.
- The Doom checksum and the Doom, IPX header and ipxpkt fixed layouts beyond those named above: copying of fields.
- Locks, goroutines and real clocks: each handler is one atomic step and time is a number. In particular `broadcastPacket` and `Record` release their locks midway in the code.
- AddressableDevices.Network.NewNode: wraps the switch as a value that the methods replace, not as a shared object, so aliasing of the inner network is not modelled. The same holds for the other methods of that class.
- IpxPktRouter.FrameReassembler.Reassemble: keeps partial frames as values in the map, where the code keeps pointers that nothing else holds.
- NegotiationHandlers.Negotiator.SendConfigureRequest: records a request by its contents, without the order of its options, which is the order a map is walked in.
- Switch.WriteReaches: does not say who wins when nodes are closed during a write, because a write is one step.
- Waiting: a read of an empty open pipe has no result, whether it would wait or be cancelled, and a read of an empty GRE queue has none at the end of the stream either.
- Packets received before StartNegotiation has set the first request number.
- The GRE key field, the lookup of sessions by address and call, and the IP socket.
- Echo, terminate and protocol-reject handling of PPP sessions beyond their wire format: straight-line replies.
- Sockets, pcap, TAP and slirp links, Ethernet framing, DOSBox and uplink servers and clients, authentication, statistics, filters, modules, flags and logging: I/O around libraries, or field copying.
