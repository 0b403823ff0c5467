# MIPTP, MIP routing and file transfer: a verified model

The repository implements a small network stack over raw Ethernet. A MIP daemon forwards packets
between nodes, a routing daemon keeps a distance-vector table with poisoned reverse, a MIPTP daemon
offers reliable in-order delivery with a Go-Back-N window of 16, and a pair of programs sends files over
it. This project models the four layers in Dafny and proves what they do over all runs.

`dafny verify dfyconfig.toml` verifies the whole project.

## How the model is built

- Each imperative file of the source has its functions twice: as functions on values, and as methods that
  change heap objects in place (linked lists, arrays, classes) and are proved against those functions.
- Networks are systems that take any finite sequence of actions; an action that is not possible changes
  nothing. A theorem about `Exec(start, actions)` is a theorem about every reachable state.
- History fields (what was sent, delivered, asked) are never read by the modelled code.

| files | layer |
|---|---|
| `Framing`, `SendQueue`, `Transport`, `MiptpDaemon`, `Exchange` | frames, send queue, MIPTP daemon, one exchange byte for byte |
| `GoBackN`, `Limits`, `Progress`, `WrapAround` | the protocol over all runs, where it stops being safe, progress, intended wrap-around |
| `Independence`, `Destinations` | several senders at one receiver, several destinations of one sender |
| `Routing`, `RoutingEffects`, `RoutingTable` | the routing table as a sequence, what each function does entry by entry, and the linked list |
| `Ordering` | all MIP daemons and links: packets of one host for another stay in order |
| `RoutingNetwork`, `Announcements`, `LoopFreedom`, `Distances`, `Timeouts`, `Convergence` | networks of routing daemons |
| `MipDaemon`, `WaitingQueue`, `Forwarding` | packets waiting for answers, forwarding over the routes |
| `FileTransfer`, `EndToEnd` | files over the transport |

## Where the code is not what it was meant to be

The model follows the code. For each of these there is a theorem with the exact condition or a run that
shows the effect.

- Sequence counters wrap after 2^14 instead of before it. The transport is safe on every run of n messages
  iff the first number plus n is at most 2^14 (`SafeExactlyBeforeWrap`); afterwards the receiver is deaf
  (`DeafAfterLastNumber`). `WrapAround` shows that wrapping one earlier, taking the window difference
  modulo 2^14 and ignoring acknowledgements on an empty queue repairs this over lossy channels that keep
  the order, and that the repaired protocol makes progress for ever (`RoundsMoveForEver`); this one file
  models the repaired code.
- The two low bits of the sequence field hold `size % 4`, but the receiver takes them for the padding
  length: only messages of even length arrive as sent (`RoundTripExact`), hence only files of even length
  (`FileReceived`). The comment in `send_ack` calls the same bits a padding length. With the true padding
  length every file arrives whole (`FileReceivedWithTruePadding`).
- The length of a segment travels in words, in 9 bits. A message of 2048 bytes arrives as eight bytes whose
  low bits make it an acknowledgement, as an empty message does (`TakenForAckExactly`); messages of 2039 to
  2046 bytes and from 4087 on arrive cut below the headers (`CutBelowHeadersExactly`). In the first case the
  receiver looks at its own send queue, may discard a message of its own, and follows a null pointer if the
  queue is empty; in the second it reads stale bytes, and the model takes it down. Such a message is never
  acknowledged and stays in the queue for ever (`UndeliverableStays`), so before the wrap rounds finish
  exactly for queues without one (`RoundsFinish`).
- A message of more than 4090 bytes is copied past the end of the sender's buffer, which takes the sender
  down in the model (`MessageOfAnyLength`). Two smaller overruns change no byte and are not modelled as
  faults: from 4087 bytes on the copy at miptp_utils.c:154 runs two bytes past the buffer, onto itself, and
  the copy at line 158 reads 4098 bytes of a buffer of 4096 for every message.
- `send_next`, described as sending the sixteenth packet, sends nothing (`SendNext`).
- An acknowledgement for an empty queue follows a null pointer; a segment that arrives twice suffices
  (`SecondAckFindsEmptyQueue`), and it takes a second arrival or a repeated acknowledgement
  (`AcksMeetNoEmptyQueue`). The model takes the sender down at that point.
- A segment with a new sender beyond the thirtieth overruns the link table, and a frame for an unknown port
  indexes the host array at -1; both are faults in the model. The file server's table overruns in the same
  way (file_transfer_utils.c:69, `Overflows`), so files are independent among at most thirty senders; the
  list of dead addresses overruns exactly if more than twenty entries end dead (`UpdateBrokenPaths`).
- There is one sequence counter per application, not per destination: a destination is served iff its
  messages are sent in one piece (`DestinationServedExactly`). `GoBackN` is about one destination.
- The first segment to arrive defines the expected number. What is handed over is a prefix of the stream
  exactly if the first message arrived first (`PrefixExactly`); if a later one did, the messages before it
  are acknowledged, discarded and never handed over (`FirstMessageLost`), and a file is lost
  (`FileThroughTransport`). `Safe` tolerates this loss: it speaks of the stream from the first accepted
  message on.
- After the last 14-bit number a deaf receiver still acknowledges, so every lossless round discards up to
  sixteen messages that nobody takes (`DeafRoundsDiscard`).
- A target advertised at 255 to a daemon that does not know it is stored at distance 0
  (`StoredDistanceExact`, `TimeoutBreaksSoundness`). Distances are sound on every state of a run exactly if
  no timeout scan of the run gives up a neighbour (`SoundIffNobodyGivenUp`).
- A shorter route or a hello changes an entry's distance but not its next hop, so a neighbour that was given
  up is never routed around (`AnswerNeverMoves`). Loop freedom and the order of packets rest on this.
- A 255 answer does not take its packet off the queue, so later packets get the answers of packets behind
  them (`AlignedExactlyUntilUnknown`, `AnswersMatchPackets`); `UnknownMisdirects` is such a run.
- The server counts missing bytes with `strlen`, so a chunk counts up to its first zero byte only
  (`ServeExact`) and files with zero bytes never count as complete (`FileReceived`).
- A withdrawal that meets a route which is already dead makes the daemon send updates although nothing
  changed (`ReportExact`), and one that is followed by an offer of the same sender is undone: it stays
  heeded iff no such offer is below 254 (`WithdrawalExact`, `WithdrawalHeeded`).

## Model

| member | source | states |
|---|---|---|
| `Framing.FillDataFrame` | miptp_utils.c:125-154 | the buffer filled field by field holds exactly the frame of a message of any length that fits: header, message, zero padding to 32 bits; a missing header is what the read buffer held |
| `Framing.CarriedFields` | miptp_utils.c:132-154 | for messages of every length: the 9-bit word count decides how much of a frame arrives, and every field that arrives is the one sent |
| `Framing.TakenForAckExactly` | miptp_utils.c:286-286 | data is taken for an acknowledgement exactly for messages of 0 and of 2048 bytes |
| `Framing.CutBelowHeadersExactly` | miptp_utils.c:276-283 | the lengths for which less than the headers arrives |
| `Framing.CarriedDataFrame` | miptp_utils.c:322-326 | a frame that fits the 9-bit length arrives in full, and the two low bits decide what the application gets of it |
| `Framing.RoundTripExact` | miptp_utils.c:322-326 | for every message of at least one byte that fits the buffer: what the receiving application gets is the message sent iff its length is even and it fits the 9-bit length field |
| `Framing.OddLengthDamage` | miptp_utils.c:134-141 | an odd message arrives with two zero bytes too many or two bytes too few, depending on its length modulo 4; a single byte does not arrive |
| `Framing.RoundTripWithTruePadding` | miptp_utils.c:134-141 | with the true padding length in the two low bits the round trip holds for every fitting length from 1 on |
| `Framing.CarriedAckFrame` | miptp_utils.c:68-95 | an acknowledgement arrives as one, with its number, addressed to the port it acknowledges |
| `SendQueue.MessageQueue.Last` | miptp_utils.c:107-112 | the walk over the linked queue ends at its last node, counting the queued messages |
| `SendQueue.MessageQueue.AddToQueue` | miptp_utils.c:97-115 | the list in place: the new message is appended, the others and their times stay, the returned index is the old length |
| `SendQueue.MessageQueue.Front` | miptp_daemon.c:51-54 | the node behind the dummy head is the front message, and null exactly for an empty queue |
| `SendQueue.MessageQueue.Advance` | miptp_utils.c:288-291 | an acknowledged front node becomes the dummy head: the queue loses exactly its first message |
| `SendQueue.MessageQueue.ResendWindow` | miptp_utils.c:208-224 | the frames of the first sixteen messages, or of all if there are fewer, are written in order and those messages stamped; the queue is unchanged |
| `SendQueue.MessageQueue.SendNext` | miptp_utils.c:226-246 | the loop never counts, so nothing is ever written |
| `Transport.ArrivesAsCarried` | miptp_utils.c:276-286 | the branch taken for a segment is decided by the word count and the low bits of its frame |
| `Transport.ArrivesAsDataExactly` | miptp_utils.c:286-295 | the message lengths whose segments are taken for data, and for acknowledgements |
| `Transport.TakeMessageExact` | miptp_utils.c:117-165 | forwarding a message of any length: up to 4090 bytes it is queued behind the others, under the 14 bits of the counter, and the counter advances; a longer one is a fault |
| `Transport.ReceiveExact` | miptp_utils.c:295-321 | a segment is accepted iff it carries the expected number, or comes from a new sender while the table has room; only that sender's expectation moves |
| `Transport.ReadExact` | miptp_utils.c:266-327 | what a frame for an application does, said through the expected number of its sender: state, acknowledgement, what is handed up, fault; nobody else changes |
| `Transport.ReadNobodys` | miptp_utils.c:282-285 | a frame for a port that nobody has is the fault of indexing at -1, and nothing else happens |
| `Transport.PortsStayDistinct` | miptp_daemon.c:70-123 | in every reachable daemon state assigned ports are distinct and a port finds its owner only |
| `Transport.PortRequestExact` | miptp_daemon.c:107-117 | a port is granted iff it is free and not 0 |
| `MiptpDaemon.Host.Pack` | miptp_utils.c:125-164 | the node for a message of any length that fits holds its 14-bit number and its frame |
| `MiptpDaemon.Host.ForwardToMip` | miptp_utils.c:117-171 | what is written is the frame of the new message, exactly if its 14-bit number less the front's is below 16, and nothing otherwise; a message over 4090 bytes is a fault; the state changes as TakeMessage says |
| `MiptpDaemon.Host.SeqExp` | miptp_utils.c:248-264 | the search finds the sender's first link or none |
| `MiptpDaemon.Host.HandleAck` | miptp_utils.c:286-294 | the front message leaves iff the number is its own; an empty queue is a null-pointer fault |
| `MiptpDaemon.Host.AddLink` | miptp_utils.c:305-313 | a new sender's number is entered behind the others |
| `MiptpDaemon.Host.AdvanceLink` | miptp_utils.c:315-321 | the sender's expected number advances, 2^14 going to 0 |
| `MiptpDaemon.Host.HandleData` | miptp_utils.c:295-327 | the link table in place does what Receive says, overflow included |
| `MiptpDaemon.Host.ResendIfTimedOut` | miptp_daemon.c:49-60 | the frames of the first sixteen messages are written again iff there is a front message whose node's time is longer ago than the timeout; then exactly their nodes get the new time |
| `MiptpDaemon.Daemon.AcceptConnection` | miptp_daemon.c:70-88 | a new application gets no port, an empty queue and no links; the others stay |
| `MiptpDaemon.Daemon.FindPort` | miptp_utils.c:173-190 | the index of the port's first owner, or -1 |
| `MiptpDaemon.Daemon.HandlePortRequest` | miptp_daemon.c:107-117 | the requester gets the port iff nobody has it; nothing else changes; it is the step of the daemon's histories |
| `MiptpDaemon.Daemon.HandleMessage` | miptp_daemon.c:118-120 | only the sending application's state changes; what is written is the new message's frame or nothing, as the window says; it is the step of the daemon's histories |
| `MiptpDaemon.Daemon.ReadMessage` | miptp_utils.c:266-328 | the whole effect of a frame: new state, acknowledgement written, message handed up, and the fault if there is one |
| `MiptpDaemon.Daemon.ResendTimedOut` | miptp_daemon.c:49-60 | the scan writes the windows of exactly the timed-out applications and gives their front messages the new time, and no others |
| `Independence.OneLinkPerSender` | miptp_utils.c:305-313 | with at most 30 senders the table holds exactly one link per sender |
| `Independence.SendersAreIndependent` | miptp_utils.c:295-325 | on any interleaving each sender's expected number and deliveries are those it would have alone |
| `Destinations.AcceptsAllIffConsecutive` | miptp_utils.c:300-321 | everything that arrives from a sender is handed over iff it arrives under consecutive numbers |
| `Destinations.ForwardNumbers` | miptp_utils.c:141-147 | all messages of an application are numbered from its one counter, whatever their destinations |
| `Destinations.DestinationServedExactly` | miptp_utils.c:141-147 | of the messages forwarded by one application without loss, a destination is handed everything sent to it iff it was sent in one piece |
| `Exchange.DataReachesOwner` | miptp_utils.c:266-327 | byte for byte, for every length, a segment reaches the owner of its port: as data it meets the sender's link and the acknowledgement is addressed to the sender; taken for an acknowledgement it meets the owner's queue |
| `Exchange.AckReturnsToSender` | miptp_utils.c:282-294 | byte for byte, the acknowledgement meets the front of the queue of the application that sent the data |
| `Exchange.ArrivalIsRead` | miptp_utils.c:266-327 | the arrival step of the protocol system is the reading of that segment's bytes, whatever the receiving application has queued itself: links, queue, acknowledgement, delivery and fault agree |
| `Exchange.AckArrivalIsRead` | miptp_utils.c:286-294 | and its acknowledgement step is the reading of the acknowledgement's bytes |
| `Exchange.OtherSenderIsRead` | miptp_utils.c:295-327 | and the traffic of other senders is the reading of their frames |
| `GoBackN.AdvanceDrop` | miptp_utils.c:286-293 | losing an acknowledgement under way never moves the front further |
| `GoBackN.StepKeepsInv` | miptp_utils.c:266-328 | every step, messages of any length included, keeps: folding the acknowledgements under way over the front never passes the expected number |
| `GoBackN.SliceOnEveryRun` | miptp_utils.c:295-325 | over all runs before the counter wraps, whatever happens to data and acknowledgements: deliveries are a contiguous piece of the stream, once and in order |
| `GoBackN.PrefixExactly` | miptp_utils.c:305-313 | and they are a prefix of the stream iff the first message accepted was the first one sent |
| `GoBackN.SafeOnEveryRun` | miptp_utils.c:285-303 | and if acknowledgements do not overtake one another, the sender discards nothing the receiver still waits for |
| `GoBackN.WindowOnEveryRun` | miptp_utils.c:167-170 | over all runs, acknowledgements in any order: a new message is written at once, and a queued one by a timeout, iff fewer than sixteen lie between it and the front; queued numbers are consecutive, and the receiver is at most a window ahead |
| `GoBackN.SubmitWrites` | miptp_utils.c:163-170 | on every run a submission records as written the message whose frame forward_to_mip writes, under the same test, and none otherwise |
| `GoBackN.TimeoutWrites` | miptp_utils.c:208-224 | on every run a timeout records as written exactly the messages whose frames resend_window writes |
| `GoBackN.UndeliverableStays` | miptp_utils.c:286-298 | on every run, a message that does not arrive as data is never acknowledged and stays queued |
| `Limits.SafeExactlyBeforeWrap` | miptp_utils.c:142-147 | every run of at most n messages is safe iff the first number plus n is at most 2^14 |
| `Limits.WrapLosesAMessage` | miptp_utils.c:315-321 | without any loss, the message after number 2^14 - 1 is acknowledged, refused and discarded |
| `Limits.DeafAfterLastNumber` | miptp_utils.c:315-321 | after the last 14-bit number a receiver never accepts anything from that sender again |
| `Limits.OvertakingBreaksSafety` | miptp_utils.c:286-303 | a run in which one acknowledgement overtakes another is unsafe, so the first-in first-out channel is needed |
| `Limits.SecondAckFindsEmptyQueue` | miptp_utils.c:288-289 | a segment that arrives twice is enough to make the sender follow a null pointer |
| `Limits.MessageOfAnyLength` | miptp_utils.c:132-150 | one message of any length: it overruns the sender's buffer, or stops the receiver unacknowledged, or is acknowledged and handed over |
| `Limits.FirstMessageLost` | miptp_utils.c:305-313 | a run in which the second message arrives first: the first one is acknowledged and discarded, never handed over |
| `Limits.AcksMeetNoEmptyQueue` | miptp_utils.c:288-289 | over all runs before the wrap in which no segment arrives twice and no acknowledgement is repeated, an acknowledgement never meets an empty queue |
| `Progress.LosslessRoundMovesWindow` | miptp_utils.c:208-224 | with only data queued, wrapped counter or not, one lossless round takes exactly min(16, length) messages off the queue; before the wrap the receiver then has everything up to the front, unless the front had passed the message it waits for |
| `Progress.RoundsEmptyQueue` | miptp_daemon.c:49-60 | from every reachable state with nothing under way, over all runs, r lossless rounds empty a queue of n data messages iff r is at least ceil(n/16) |
| `Progress.RoundsFinish` | miptp_daemon.c:49-60 | before the wrap also only for queues of data; and then everything from the first accepted message on was handed over iff the front had not passed the message the receiver waited for |
| `Progress.DeafRoundsDiscard` | miptp_utils.c:295-321 | after the last 14-bit number lossless rounds discard sixteen messages each and deliver none |
| `WrapAround.StepAgrees` | miptp_utils.c:141-147 | with the intended wrap, every test on 14-bit numbers decides as on unbounded indices |
| `WrapAround.WindowAgrees` | miptp_utils.c:167-170 | the window difference modulo 2^14 is right below 2^14 queued messages and wrong at 2^14 |
| `WrapAround.ShortNumbersRefineIndices` | miptp_utils.c:315-321 | over lossy first-in first-out channels the repaired 14-bit protocol is the unbounded one, on every run |
| `WrapAround.SafeForEver` | miptp_utils.c:285-303 | so the front never passes the expected message, data under way is within sixteen of it, and acknowledgements under way are between sixteen behind and thirty-two ahead of the front, for ever |
| `WrapAround.AcceptsInOrder` | miptp_utils.c:300-321 | and an arrival is accepted exactly when it is the expected message |
| `WrapAround.WritesInWindow` | miptp_utils.c:167-170 | on every run a new message is written at once iff fewer than sixteen are queued before it |
| `WrapAround.RoundsMoveForEver` | miptp_daemon.c:49-60 | from every state with nothing under way, however often the numbers wrapped, r lossless rounds take min(16 r, queue) messages off the queue and the receiver has everything up to the front |
| `Routing.HelloKeeps` | routing_utils.c:111-137 | a hello keeps one entry per address and all next hops; without a change report only the time changed |
| `Routing.MergeKeeps` | routing_utils.c:301-334 | merging pairs keeps one entry per address and all next hops, and adds exactly the unknown targets, routed through the sender |
| `Routing.ReceiveKeeps` | routing_utils.c:288-337 | after an update also no live route goes through a dead entry, and a false result means that nothing changed |
| `Routing.ClosureExact` | routing_utils.c:245-286 | the closure kills a route exactly when it leads to a dead entry and changes nothing else |
| `Routing.ClosedIsClosure` | routing_utils.c:245-286 | marking that has nothing left to do has computed exactly the closure |
| `Routing.PairsForExact` | routing_utils.c:198-219 | a neighbour is told every entry but its own, at MAX_DISTANCE iff the route goes through it |
| `Routing.UpdatesExact` | routing_utils.c:186-241 | updates go to exactly the entries at distance 1, each with the pairs for it |
| `Routing.LookupExact` | routing_utils.c:339-358 | the answer is the next hop of the target's entry iff that is live, else 255 |
| `Routing.ScanKeeps` | routing_utils.c:417-438 | the timeout scan kills exactly the entries at distance 1 not heard for more than 12 seconds |
| `RoutingEffects.HelloExact` | routing_utils.c:111-137 | after a hello its sender has distance 1 and the time of the hello, whatever the table was; nothing else changes; updates are sent iff a distance changed |
| `RoutingEffects.HelloKeepsAlive` | routing_utils.c:124-132 | so the sender is routed to, and a scan gives it up iff more than 12 seconds passed since the hello |
| `RoutingEffects.ApplyPairExact` | routing_utils.c:310-333 | a pair from the next hop at 255 kills the route, any other pair leaves the smaller of the two distances, an unknown target is entered one further away; no other entry changes |
| `RoutingEffects.MergeExact` | routing_utils.c:303-334 | after all pairs a known entry is at the least of its own distance, or of 255 since its last withdrawal, and one more than each distance offered since |
| `RoutingEffects.NewEntryExact` | routing_utils.c:329-332 | an unknown target is entered by the first pair for it; the later ones meet a known entry |
| `RoutingEffects.ReceiveExact` | routing_utils.c:288-337 | after an update a known entry has the distance its pairs left it and is routed to, unless it leads to a dead entry |
| `RoutingEffects.WithdrawalHeeded` | routing_utils.c:316-320 | a target withdrawn by its next hop, and not offered below 254 later in the same message, is looked up as 255, and so is everything routed through it |
| `RoutingEffects.WithdrawalExact` | routing_utils.c:316-325 | the last withdrawal stands iff no pair after it in the message offers the target below 254 |
| `RoutingEffects.ReportExact` | routing_utils.c:300-336 | an update is sent on iff a distance changed, a target became known, a route was withdrawn, or a live route led to a dead one |
| `RoutingEffects.PairsInOrder` | routing_utils.c:198-219 | the pairs for a neighbour are those of the other entries, one each, in the order of the table |
| `RoutingEffects.UpdatesOnce` | routing_utils.c:186-241 | no neighbour is written to twice |
| `RoutingEffects.ScanSends` | routing_utils.c:427-437 | a scan sends, once for each silent neighbour, the updates of the table in which it and the silent ones before it are dead, and nothing else |
| `RoutingEffects.GivenUpIsAnnounced` | routing_utils.c:432-434 | whoever is given up, every neighbour still at distance 1 is told that it is at 255 |
| `RoutingTable.RoutingList.AddToLinkedList` | routing_utils.c:85-109 | the list in place: one entry is appended |
| `RoutingTable.RoutingList.HandleHello` | routing_utils.c:111-137 | the list in place refines the hello on the table, result included |
| `RoutingTable.RoutingList.HandlePair` | routing_utils.c:303-334 | one pair over the whole list refines the pair on the table |
| `RoutingTable.RoutingList.UpdateBrokenPaths` | routing_utils.c:245-286 | the nested fixpoint loop overruns its list iff more than twenty entries are dead in the closure; otherwise it ends with exactly the closure, and reports true iff something changed |
| `RoutingTable.RoutingList.UpdateRoutingList` | routing_utils.c:288-337 | the whole update in place refines Receive, result included, or overruns that list, for exactly the tables that end with more than twenty dead entries |
| `RoutingTable.RoutingList.LookupNext` | routing_utils.c:339-358 | the walk returns what Lookup says |
| `RoutingTable.RoutingList.SendUpdate` | routing_utils.c:172-243 | the messages built are exactly Updates |
| `RoutingTable.RoutingList.IdentifyBrokenPath` | routing_utils.c:417-438 | the scan in place gives the table and the messages of Scan, each message from the table at its moment |
| `RoutingTable.PassFacts` | routing_utils.c:254-284 | a pass marks broken entries only; one that marks nothing has found the table closed, any other leaves fewer live entries |
| `RoutingTable.DeadCounted` | routing_utils.c:256-266 | the list of dead addresses has one place for each dead entry |
| `RoutingNetwork.StepGrows` | routing_utils.c:98-108 | in a network no step forgets an entry or changes a next hop |
| `RoutingNetwork.RankExists` | routing_utils.c:360-394 | in every reachable network every entry has a rank one above its next hop's, the target being last |
| `Announcements.ChangesAreAnnounced` | routing_utils.c:375-392 | whatever a step of the network changes: where a daemon has a new distance to a target, each of its neighbours has been sent it, or 255 if the route goes through that neighbour |
| `Announcements.PeriodicTells` | routing_daemon.c:42-46 | and a periodic update tells every neighbour of every other entry |
| `LoopFreedom.RoutesNeverLoop` | routing_utils.c:339-358 | over all runs every entry leads along next hops to its target, visiting no daemon twice |
| `LoopFreedom.NoCycle` | routing_utils.c:105-105 | over all runs no daemon comes back to itself along next hops |
| `LoopFreedom.PacketNeverRevisits` | routing_utils.c:339-358 | a packet whose hops are looked up at any moments while tables change never visits a daemon twice |
| `LoopFreedom.AnswerNeverMoves` | routing_utils.c:303-327 | over all runs and at any moments, a daemon's answer for a target is 255 or always the same hop |
| `Ordering.OwnAnswer` | mip_daemon_utils.c:104-146 | while no daemon of a route was answered 255, a packet of the flow along it leaves for the next daemon of the route |
| `Ordering.PacketLeaves` | mip_daemon_utils.c:104-146 | an answer other than 255 finds a packet waiting and moves the first to the end of the link it names; nothing else changes |
| `Ordering.PacketArrives` | mip_daemon.c:615-645 | a packet that arrives is handed up, or waits with its ttl lowered, or is gone if that has run out; nothing else changes |
| `Ordering.FlowsArriveInOrder` | mip_daemon.c:615-645 | over every run of all MIP daemons and lossy in-order links, under the tables of any routing run: packets of one host for another arrive in the order sent, some left out, while no daemon on the route was answered 255 |
| `Distances.DistancesAreSound` | routing_utils.c:204-218 | on a fixed topology, over all runs whose timeout scans give nobody up, no entry dies, and each distance lies between the hop distance and the length of its route |
| `Distances.QuietTick` | routing_utils.c:427-437 | a timeout scan without a silent neighbour changes nothing and sends nothing |
| `Distances.SoundIffNobodyGivenUp` | routing_utils.c:428-437 | every state of a run has sound distances iff no timeout scan in it finds a silent neighbour |
| `Distances.MailIsWelcome` | routing_utils.c:210-213 | poisoned reverse never reaches a daemon that routes through the sender or does not know the target |
| `Timeouts.StoredDistanceExact` | routing_utils.c:329-332 | an unknown target is stored one further than advertised exactly unless it was advertised at 255 |
| `Timeouts.TimeoutBreaksSoundness` | routing_utils.c:428-437 | how far it goes: with one neighbour given up a reachable network holds a live route of distance 0 to it |
| `Convergence.RoundIsExact` | routing_utils.c:172-243 | one round of snapshot updates, in any order, extends exact tables by one link |
| `Convergence.RoutesConverge` | routing_utils.c:288-337 | after all hellos and k rounds an entry exists iff the target is within k + 1 links, with exact distance and a next hop one closer |
| `Convergence.ScansDoNotMatter` | routing_daemon.c:47-47 | timeout scans that give nobody up, anywhere in such a run, do not change where it ends |
| `MipDaemon.CarriesFrames` | mip_daemon.c:615-628 | what one daemon accepts from an application the other hands up, cut to the 9-bit word count and naming the sender |
| `MipDaemon.AlignedExactlyUntilUnknown` | mip_daemon.c:681-713 | in every reachable state waiting packets match pending answers and requests iff no answer was 255 |
| `MipDaemon.AnswersMatchPackets` | mip_daemon_utils.c:104-146 | packets leave in order; each takes the answer of the packet as many places behind as 255 answers came before; the queue is never found empty |
| `MipDaemon.UnknownMisdirects` | mip_daemon_utils.c:104-146 | a run in which a packet for an unknown address leaves on the answer for the packet behind it, which is left waiting |
| `WaitingQueue.Queue.Add` | mip_daemon_utils.c:150-162 | the list in place: the packet is appended |
| `WaitingQueue.Queue.Pop` | mip_daemon_utils.c:164-185 | the first packet is taken off, or the first node's content returned when none waits |
| `WaitingQueue.Daemon.HandleApplication` | mip_daemon.c:661-714 | an application's packet waits with default ttl and word count and its destination is asked for: the step of MipDaemon |
| `WaitingQueue.Daemon.HandleForeign` | mip_daemon.c:633-645 | a packet for another daemon waits with its ttl lowered, or is dropped at ttl 0: the step of MipDaemon |
| `WaitingQueue.Daemon.HandleAnswer` | mip_daemon_utils.c:104-146 | 255 leaves the queue alone, any other answer sends its first packet to that hop, or the head node's content if none waits; for the oldest answer it is the step of MipDaemon |
| `Forwarding.DeliveredExactly` | mip_daemon.c:633-645 | over live routes a packet with ttl T arrives iff its route has at most T + 1 hops |
| `Forwarding.ForwardedAtMost` | mip_daemon.c:633-645 | whatever answers send it on, a packet is forwarded at most T times |
| `Forwarding.ForwardedOncePerDaemon` | mip_daemon.c:633-645 | and if its hops are those of its own destination, never to the same daemon twice, while tables change |
| `Forwarding.DeliveredAfterRounds` | mip_daemon.c:633-645 | after k rounds a packet gets to a target at hop distance d iff d is at most k + 1 and at most T + 1, on a shortest path |
| `Forwarding.ApplicationReach` | mip_daemon.c:690-712 | a packet with the ttl that its application chose, modulo 16, 0 standing for 3, reaches exactly the daemons within one link more and within k + 1 links |
| `Forwarding.TransportReach` | mip_daemon.c:690-692 | with the default ttl of 3 transport segments reach exactly the daemons within four links that are known |
| `FileTransfer.SendFile` | file_transfer.c:90-105 | the read loop writes the size message and the chunks of 1400 bytes |
| `FileTransfer.FileServer.CheckLink` | file_transfer_utils.c:73-90 | the search finds the sender's link or -1 |
| `FileTransfer.StrLenExact` | file_server.c:99-99 | what a chunk counts for is the place of its first zero byte, or its length if it has none |
| `FileTransfer.AnnouncedExact` | file_server.c:91-91 | the announced size is the number whose digits in network order are the first four data bytes, missing ones being zero |
| `FileTransfer.ServeExact` | file_server.c:86-101 | a chunk is appended as it came and lowers its sender's count, modulo 2^32, by the place of its first zero byte; a new sender is entered; no other link changes |
| `FileTransfer.ReceivedExact` | file_server.c:95-101 | after any chunks of a sender the content is all of them, and the count what their first zero bytes leave of the size modulo 2^32 |
| `FileTransfer.FileServer.HandleMessage` | file_server.c:79-106 | one round of the server's loop: a new link with the announced size, the overflow of a full table, or the chunk appended and the count lowered |
| `FileTransfer.ChunkThrough` | file_transfer.c:101-105 | a chunk arrives intact iff even, otherwise two bytes longer or shorter |
| `FileTransfer.FileReceived` | file_server.c:95-105 | all chunks give the file iff its length is even; the count reaches 0 with the last chunk, and only then, iff there is no zero byte and the length is not 3 modulo 4 |
| `FileTransfer.PartsAreFileExactly` | file_server.c:95-97 | some consecutive chunks give the file iff they are all of them and the length is even |
| `FileTransfer.ChunkThroughWithTruePadding` | miptp_utils.c:134-141 | with the true padding length every chunk arrives intact |
| `FileTransfer.FileReceivedWithTruePadding` | file_server.c:95-105 | every file then arrives whole, and the count reaches 0 with its last chunk iff there is no zero byte |
| `EndToEnd.OneLinkPerSender` | file_transfer_utils.c:46-71 | with at most thirty senders the server has one link for each and its table never overflows |
| `EndToEnd.FilesAreIndependent` | file_server.c:86-106 | on any interleaving of at most thirty senders each file is as if its sender were alone |
| `EndToEnd.FileAmongTraffic` | file_server.c:79-106 | among any other traffic, of thirty senders in all, the content after any consecutive messages of a file is the file iff they are all of them and the length is even; from the first message on the count is exact too |
| `EndToEnd.FileThroughTransport` | file_transfer.c:90-105 | over every run of the transport before the wrap, the server holds the whole file iff its first message arrived first, everything was handed over and the length is even |
| `EndToEnd.FileAfterLosslessRounds` | file_transfer.c:90-105 | from any quiet state, ceil(n/16) lossless rounds bring the server to the whole file iff nothing or a first piece of it had been delivered, the sender had discarded nothing still awaited, and the length is even |
| `EndToEnd.FileFromStart` | file_transfer.c:90-105 | in particular a file given to the daemon at once, before the counter wraps, is at the server after ceil(n/16) lossless rounds |

## Left out

- SafeOnEveryRun: assumes that acknowledgements do not overtake one another and that the counter has not
  wrapped; both are needed, as `OvertakingBreaksSafety` and `SafeExactlyBeforeWrap` show. The slice and the
  window need only the second. `FlowsArriveInOrder` shows when the network below does not reorder them; its
  links are taken to keep the order.
- RoundsFinish: before the wrap; after it `RoundsEmptyQueue` still holds, but what the receiver gets then
  depends on where its expected number stands (`DeafRoundsDiscard`).
- MiptpDaemon.Host.ForwardToMip: no fault for 4087 to 4090 bytes, where the copy past the buffer changes no
  byte.
- DestinationServedExactly: up to the last 14-bit number; what comes after it is refused by every receiver
  that accepted that number (`DeafAfterLastNumber`).
- FilesAreIndependent: at most thirty senders; with more the code writes behind its link table.
- ForwardedOncePerDaemon: hops looked up for another packet's destination, as after a 255 answer, are not
  covered; for them only `ForwardedAtMost` holds.
- ShortNumbersRefineIndices: both channels keep the order and do not repeat, and a message is submitted only
  while fewer than 2^14 are queued; `WindowAgrees` shows that the window test fails beyond.
- DistancesAreSound: networks of at most 20 daemons (MAX_NODES), and runs whose scans give nobody up, which
  is the exact condition (`SoundIffNobodyGivenUp`).
- RoutesConverge: the rounds are synchronous; updates that the code sends between rounds are taken as lost
  or delayed.
- WaitingQueue.Daemon.HandleAnswer: the next hop's hardware address is taken as cached.
- RoutingNetwork: an update of any length travels whole, and no table has more than twenty dead entries; the
  size byte of updates and the list of dead addresses bound real networks so.
- GoBackN: one sender and one destination per run; other senders at the receiver are arbitrary traffic, other
  applications of either daemon are separated by `PortsStayDistinct` and `Exchange`.
- Sockets, polling, interface lookup, raw frames, argument parsing, printing, freeing: system calls and
  plumbing; they appear as actions and parameters.
- Time: `gettimeofday` is a parameter, and in the protocol a timeout may happen at any moment.
- ARP: the four-entry cache and the queue of packets waiting for it.
- The protocol number of an upper-layer packet is a parameter; the `switch` that chooses it lacks a `break`,
  so it gives every client the transport's number.
- Frames that arrive with fewer than eight bytes, and messages to the file server with fewer than two: the
  code reads stale bytes of its buffer there; in `GoBackN` such a frame takes the receiver down. The header
  that `forward_to_mip` reads for an application's message of fewer than two bytes is a parameter.
- File handles: a link holds the bytes written so far; closing is the moment its count reaches 0.
- The ping programs, the Mininet scripts and the Makefile.
