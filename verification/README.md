# Network agents: sessions, packets, walks and prefixes

A Dafny model of the Linux half of the network module's real logic, and proofs about it.

* `Sessions.dfy`, `Controller.dfy`, `SessionRuns.dfy`, `SessionLaws.dfy`, `SessionIds.dfy`,
  `SessionCalls.dfy` — the ICMP session controller.
  `Sessions` gives every locked region (insert, remove, queued sweep, datagram) as a function on values;
  `IcmpController` has the controller and its hosts as mutable objects and proves each method against that
  function, the nested `remove_if` inside a sweep included; the others prove what holds of every run,
  exactly when the wrapping ids break it, and what workers and network get to see.
* `Checksum.dfy`, `Echo.dfy` — `in_chksum` and the echo packet, over bytes and for both byte orders (`Bytes.dfy`).
* `Netlink.dfy`, `Gateway.dfy` — the netlink message walk with its listeners, and the nested route walk of the
  default gateway.
* `Prefix.dfy`, `Interfaces.dfy` — IPv4 prefixes, the netmask bit count, and the "local" and "remote" states.
* `Agent.dfy` — the agent that refreshes sessions and computes the state shown.
* `Arithmetic.dfy` — the nonlinear facts the other modules use.

Check it with `dafny verify dfyconfig.toml`.

## What is assumed

* `std::list::remove_if` reads the next iterator before it calls its closure and unlinks afterwards. Each locked
  region is one atomic step; a callback of a worker neither throws nor calls back into the controller.
* Everything the system answers is a parameter: the clock readings, time stamp, address family and outcome of
  `sendto` for each visit of a session, the outcome of `socket`, the datagram or batch received, the interface
  list. `socket()` returns a positive descriptor and closing resets it to -1. The clock may do anything
  except where a lemma requires it not to go back within a visit (`Honest`).
* A raw datagram is what `recvfrom` stored, so at most 60 bytes. `unsigned long` has 64 bits.
* The netlink registry's mutex makes its operations atomic; listeners do not change during a dispatch.
* The lemmas about runs speak of all interleavings of inserts, cancellations, sweeps and datagrams, shared ids
  included. One thing the language leaves undefined: a sweep whose nested `remove_if` destroys the node it has
  captured (`Sessions.Loses`). `Controller.Sweep` is proved against the sweep of values for every list and every
  course of events in which that does not happen; where it does, the values go on as if the next linked node were
  captured. `SessionIds.LosesExactly` says when it can happen.
* Bytes behind the buffer of gateway detection are arbitrary but there: reading them is undefined in C, and the
  model lets the walk find anything in them. `Gateway.DumpReadBack` says when it does not look.

## Where the code is not what it looks like

* The session deadline is computed from `interval()`, not from `timeout()` (`icmphost.cc:31`): `DeadlineIgnoresTimeout`,
  and so no session with an interval of at least one second sends more than two packets (`AtMostTwoProbes`,
  `EndedWithinBound`, `TwoProbesHappen`).
* When the first packet of a new session fails with ENETUNREACH its worker is not told: the node is not linked
  yet. Instead the failure ends, and is reported to, any live session opened a multiple of 65536 inserts before:
  `InsertEndsExactly`, and `WrappedInsertEndsAnother` for a run in which it happens.
* Once live sessions share an id, a refused send in a sweep ends all of them, due or not, and tells their workers so:
  `SweepStaysExactly`, `SharedSweepTakesAlong`. And it can destroy the node the sweep has captured: `LosesExactly`,
  `LossIsReachable`.
* An agent never stores the response it was given (`agent.cc:46`), so repeated responses are reported again, and
  losing the address does not reset the ICMP state: `UpdatesExactly`, `LostAddressForgetsExactly`, with
  `RepeatedResponseUpdates` and `AnsweredThenLost` as the smallest cases.
* The size check on a gateway attribute looks at the bytes left in the message, not at the attribute
  (`defaultgateway.cc:194`): a plain IPv4 gateway is refused as soon as more than eight bytes of attributes follow
  it: `PlainGatewayRefusedExactly`, and `PlainGatewayThrows` for a route with gateway, interface and priority.
* The walk asks every message for its table (`defaultgateway.cc:173`), also one too short to have one. When a dump
  fills the buffer and ends in a message of less than 21 bytes, such as a DONE, that byte lies behind the buffer:
  `DumpReadBack`, and `FullBufferReadsBehind` for a dump of 4096 bytes. What detection finds does not depend on it:
  `DetectionOfDump`.
* After a failed `bind` the netlink registry keeps an open socket that nobody watches, and later registrations
  succeed without effect until the last listener is removed: `StuckExactly`, `BindFailureSticks`,
  `StuckUntilEmptied`.
* The longest buffer `in_chksum` can sum without overflow depends on the byte order: 65537 bytes little-endian,
  65536 big-endian, because of the odd last byte: `OverflowBound`.
* An empty address compares as true with "local" and with "remote" alike, until the first successful search:
  `EmptyUntilMatched`, `ComplementExactly`.

## Model

| member | source | states |
|---|---|---|
| Checksum.InChksum | src/library/os/linux/icmp_controller.cc:248-269 | the loop computes the complement of the one's complement sum of section 1 of RFC 1071, without signed overflow, for every buffer whose sum fits an int, odd lengths included |
| Checksum.OddTailPadded | src/library/os/linux/icmp_controller.cc:260-263 | an odd last byte counts as if a zero byte followed it (section 4.1 of RFC 1071), on either host |
| Checksum.FoldUntilNoCarryIsOnes | src/library/os/linux/icmp_controller.cc:265-266 | folding until no carry is left, as in section 4.1 of RFC 1071, is the sum modulo 65535, with 0 only for 0 |
| Checksum.TwoFoldsSuffice | src/library/os/linux/icmp_controller.cc:265-268 | the two fixed folds agree with folding until no carry is left, for every 32-bit sum |
| Checksum.OverflowBound | src/library/os/linux/icmp_controller.cc:248-263 | no buffer of a length overflows the int accumulator if and only if the length is at most 65537 (little-endian) or 65536 (big-endian) |
| Checksum.ByteOrderIndependence | src/library/os/linux/icmp_controller.cc:248-269 | section 2(B) of RFC 1071: the checksum of the byte-swapped words is the byte-swapped checksum, for every buffer |
| Checksum.StoredChecksumIsOrderFree | src/library/os/linux/icmp_controller.cc:297 | storing the checksum without htons puts the same two bytes in the packet on hosts of either order |
| Checksum.SealedSumsToZero | src/library/os/linux/icmp_controller.cc:288-297 | storing the checksum in the zeroed field makes the checksum of the whole buffer zero |
| Checksum.SingleWordChange | src/library/os/linux/icmp_controller.cc:248-269 | changing one word keeps the checksum if and only if it swaps 0 and 0xFFFF and something else is not zero |
| Bytes.LoadStore | src/library/os/linux/icmp_controller.cc:288-296 | a field written in the host's order is read back unchanged |
| Bytes.StoreHtons | src/library/os/linux/icmp_controller.cc:295-296 | htons puts the most significant byte first in memory on either host |
| Echo.BuildPacket | src/library/os/linux/icmp_controller.cc:288-297 | the packet as sent: type, number, identifier and payload set, then sealed with in_chksum, which cannot overflow at this length |
| Echo.PacketLayout | src/library/os/linux/icmp_controller.cc:288-297 | every byte of a packet but the checksum by position: type 8, code 0, identifier and number most significant byte first, 20 zero bytes, payload |
| Echo.PacketVerifies | src/library/os/linux/icmp_controller.cc:297 | in_chksum over a whole packet gives zero |
| Echo.PacketInjective | src/library/os/linux/icmp_controller.cc:288-297 | two packets of a process are equal if and only if number and payload are |
| Echo.CorruptionDetected | src/library/os/linux/icmp_controller.cc:288-297 | a changed word of a sent packet keeps it valid if and only if the change swaps 0 and 0xFFFF |
| Echo.Recognise | src/library/os/linux/icmp_controller.cc:101-131 | the two filters: a datagram passes if and only if it has 60 bytes and bears this pid's low 16 bits |
| Echo.AcceptExactly | src/library/os/linux/icmp_controller.cc:101-121 | the same in terms of the datagram's bytes, for either byte order |
| Echo.PayloadRoundTrip | src/include/private/linux/icmp_controller.h:36-43 | a payload is recovered from its bytes |
| Echo.EchoRoundTrip | src/library/os/linux/icmp_controller.cc:101-131 | a reply that copies a sent packet but for type and checksum passes both filters and decodes to that type and the original payload |
| IcmpController.Host.constructor | src/library/os/linux/icmphost.cc:28-33 | takes the next id, sets the deadline and sends, while the new node is not in the list; a failing send may only end others |
| IcmpController.Host.Send | src/library/os/linux/icmphost.cc:127-145 | one more packet prepared, the next one due an interval later, and the list and books as the controller's send leaves them |
| IcmpController.Host.OnTimer | src/library/os/linux/icmphost.cc:44-58 | expired: callback and false; not due: nothing; due: sends, and an unreachable network unlinks every host with this id, this one among them, while true is returned |
| IcmpController.Host.OnError | src/library/os/linux/icmphost.cc:60-77 | ends exactly the session named by the payload, on ENETUNREACH only, with its callback |
| IcmpController.Host.OnResponse | src/library/os/linux/icmphost.cc:79-125 | the verdict and the callback by type, none for a looped-back request |
| IcmpController.Controller.Stop | src/library/os/linux/icmp_controller.cc:65-73 | socket, timer and handler all down |
| IcmpController.Controller.Start | src/library/os/linux/icmp_controller.cc:162-214 | everything up, or everything down when the socket cannot be had |
| IcmpController.Controller.RemoveIf | src/library/os/linux/icmp_controller.cc:125-131 | the loop with a captured next node leaves, in order, the hosts the closure keeps, and books the others once each |
| IcmpController.Controller.Turn | src/library/os/linux/icmp_controller.cc:125-131 | one turn: the captured next node is the right one whether or not the current one is unlinked |
| IcmpController.Controller.Send | src/library/os/linux/icmp_controller.cc:271-325 | throws without a socket or an IPv4 address; otherwise one packet on the wire and, when sendto fails, the nested remove_if |
| IcmpController.Controller.NextPacket | src/library/os/linux/icmp_controller.cc:288-297 | the bytes of the next numbered packet |
| IcmpController.SendByFate | src/library/os/linux/icmp_controller.cc:299-311 | the nested remove_if ends every linked host with the sender's id on ENETUNREACH, and nobody on any other error |
| IcmpController.Controller.Sweep | src/library/os/linux/icmp_controller.cc:138-160 | while the node captured is not destroyed under it, the sweep does what the sweep of values does in spite of the nested remove_if, whoever shares an id, stopping when nobody is left |
| IcmpController.Controller.TimerTurn | src/library/os/linux/icmp_controller.cc:145-151 | one turn is one visit of the sweep of values, and the node captured before it is the next to be attended |
| IcmpController.Controller.Attend | src/library/os/linux/icmp_controller.cc:145-151 | hosts attended and to come, their values and the books after one visit are those of the sweep of values, whoever was unlinked |
| IcmpController.Controller.Insert | src/library/os/linux/icmp_controller.cc:216-228 | busy, failed start and success, each with its whole new state |
| IcmpController.Controller.Open | src/library/os/linux/icmp_controller.cc:225-226 | marks the worker busy, sends before linking, and links the new node last |
| IcmpController.Controller.Remove | src/library/os/linux/icmp_controller.cc:230-246 | ends the worker's sessions without a callback and stops an idle listener |
| IcmpController.Controller.HandleEvent | src/library/os/linux/icmp_controller.cc:75-136 | error, wrong size, wrong identifier: nothing; otherwise the list's remove_if with the response |
| SessionRuns.Conservation | src/library/os/linux/icmp_controller.cc:216-246 | in every run each session opened is live once or ended once, and sessions opened are the live and the ended together |
| SessionRuns.LiveSerialsDistinct | src/library/os/linux/icmp_controller.cc:226 | live sessions stem from different inserts |
| SessionRuns.CallbacksExact | src/library/os/linux/icmphost.cc:44-125 | in every run the callbacks are exactly those the ended sessions owe, in order: one for timeout, unreachable network, echo reply, destination unreachable and time exceeded, none for a cancellation or an unexpected type |
| SessionCalls.CallbacksByKind | src/library/os/linux/icmphost.cc:44-125 | in every run each worker gets each response exactly as often as its sessions ended in the way it tells of: expiry a timeout, no route an unreachable network, an answer of type 0, 3 or 11 an echo reply, an unreachable destination, an exceeded time |
| SessionCalls.VisitCalls | src/library/os/linux/icmphost.cc:44-77 | one visit of a sweep tells an expired session's worker of a timeout, on a refused send every worker linked with that id of an unreachable network, in order, and otherwise nobody anything |
| SessionCalls.InsertCalls | src/library/os/linux/icmp_controller.cc:224-226 | an insert tells nobody anything, but for those who have the id it takes when its first send is refused |
| SessionCalls.InsertListens | src/library/os/linux/icmp_controller.cc:216-228 | in every run an insert refused or failed changes nothing; it fails exactly when the listener is down and the socket cannot be had, and opens a socket only when there is none |
| SessionRuns.BusyCountsSessions | src/library/os/linux/icmp_controller.cc:216-246 | in every run a worker's busy flag counts its live sessions |
| SessionRuns.BusyExactlyWhenLive | src/library/os/linux/icmp_controller.cc:216-246 | a worker is busy if and only if it has a live session, and no two live sessions share a worker |
| SessionRuns.RefusedExactlyWhenLive | src/library/os/linux/icmp_controller.cc:220-222 | an insert is refused with EBUSY if and only if the worker has a live session |
| SessionRuns.KeptConserves | src/library/os/linux/icmp_controller.cc:125-131 | a closure moves sessions from live to ended and loses or doubles none |
| SessionRuns.SweepFrees | src/library/os/linux/icmp_controller.cc:145-151 | a sweep keeps busy flags and ownership in step, the sessions a refused send takes along included |
| SessionRuns.SweepConserves | src/library/os/linux/icmp_controller.cc:145-151 | so does a sweep |
| SessionRuns.RunListens | src/library/os/linux/icmp_controller.cc:65-73 | in every run the listener is entirely up or down, and up while a session is live; then an insert cannot fail to start |
| SessionLaws.IdsDistinctExactly | src/library/os/linux/icmphost.cc:29-30 | live ids are distinct if and only if no two live sessions were opened a multiple of 65536 inserts apart |
| SessionLaws.RecentIdsDistinct | src/library/os/linux/icmphost.cc:29-30 | they are while every live session is among the last 65536 inserts |
| SessionIds.InsertEndsExactly | src/library/os/linux/icmp_controller.cc:216-228 | in every run an insert ends exactly the live sessions opened a multiple of 65536 inserts before, and these only if its first send is refused as unreachable; the new session stays live and busy |
| SessionIds.InsertEndsNone | src/library/os/linux/icmp_controller.cc:226 | so it ends and calls nobody while every live session is among the last 65535 inserts, even if its first send fails |
| SessionIds.WrappedInsertEndsAnother | src/library/os/linux/icmphost.cc:29-33 | a run with all live ids distinct and every live session among the last 65536 inserts, in which the next insert's refused send ends another worker's session and tells it so |
| SessionIds.WrappedIdsShared | src/library/os/linux/icmphost.cc:29-30 | a run that reaches two live sessions with one id |
| SessionLaws.RemoveExactly | src/library/os/linux/icmp_controller.cc:230-246 | in every run a cancellation calls nobody, changes nothing for an idle worker, and otherwise takes out the worker's one session and leaves the others in order |
| SessionLaws.DatagramEndsAtMostOne | src/library/os/linux/icmphost.cc:79-83 | with distinct ids a datagram ends at most one session, and changes nothing else |
| SessionCalls.ReceiveExactly | src/library/os/linux/icmp_controller.cc:101-131 | a datagram leaves everything as it is if and only if it has not 60 bytes, or another process's identifier, or type 8, or the id of no live session |
| SessionIds.RefusalRemoves | src/library/os/linux/icmp_controller.cc:303-309 | a refused send in a sweep takes exactly the sessions with the sender's id out of those still to be attended |
| SessionIds.CapturedNodeStays | src/library/os/linux/icmp_controller.cc:303-309 | the node captured, the first of those, stays linked if and only if it has another id |
| SessionIds.LosesExactly | src/library/os/linux/icmp_controller.cc:145-151 | some course of events makes a sweep lose its captured node if and only if two sessions share an id and earlier sessions that can be refused in the same sweep as the first of them bear the ids of all between; for clocks that do not go back in all their readings within a sweep, and for any clock, each with its condition on the times |
| SessionIds.DistinctNeverLoses | src/library/os/linux/icmp_controller.cc:145-151 | with distinct ids no course of events does |
| SessionIds.LossIsReachable | src/library/os/linux/icmp_controller.cc:145-151 | a run reaches a list on which it can happen with a clock that does not go back |
| SessionIds.SharedSweepTakesAlong | src/library/os/linux/icmp_controller.cc:303-309 | a run in which a sweep that loses nothing ends a session neither due nor expired, frees its worker and calls it |
| SessionLaws.ReplyEndsItsSession | src/library/os/linux/icmphost.cc:79-103 | a reply to a packet of a live session ends that session alone, with the callback its type owes |
| SessionLaws.SendsExactly | src/library/os/linux/icmp_controller.cc:271-297 | in every run each payload an insert or a sweep hands to send is put on the wire if and only if the worker's address is IPv4: the controller is never found not available |
| SessionLaws.WireIsSent | src/library/os/linux/icmp_controller.cc:299 | every request on the wire of a run was sent by one of its sessions at some step |
| SessionLaws.ReplyEndsItsSender | src/library/os/linux/icmphost.cc:79-103 | over every run, with distinct ids, a reply to a request on the wire ends the session that sent it, if it is still live, and no other |
| SessionCalls.ReplyCalls | src/library/os/linux/icmphost.cc:79-125 | a reply to a packet of a live session tells its worker echo reply for type 0, destination unreachable for 3, time exceeded for 11, and nothing for any other type |
| SessionCalls.ReplyCallsItsSender | src/library/os/linux/icmphost.cc:79-125 | the same over every run, for each request on the wire and the live session that sent it |
| SessionCalls.WireNumbered | src/library/os/linux/icmp_controller.cc:293-295 | over every run the requests on the wire are numbered 1, 2, 3 and so on, modulo 65536 |
| SessionCalls.PayloadsOf | src/library/os/linux/icmphost.cc:131-138 | over every run a payload handed to send bears the session's id, the time stamp read for it, and the count of packets prepared with it: one at the opening |
| SessionCalls.DueAgainExactly | src/library/os/linux/icmphost.cc:133 | after a send a session in time waits exactly until an interval after the clock read for that send |
| SessionLaws.SweepAsksOnce | src/library/os/linux/icmphost.cc:44-58 | in a sweep each session due, and no other, puts exactly one packet on the wire |
| SessionLaws.DistinctSweep | src/library/os/linux/icmp_controller.cc:145-151 | with distinct ids a sweep attends each session exactly once, each by its own fate, and never loses the node it has captured |
| SessionLaws.SweepLeavesExactly | src/library/os/linux/icmp_controller.cc:145-151 | with distinct ids a sweep leaves, in their order, exactly the sessions neither expired nor refused as unreachable, a due one with one packet more |
| SessionLaws.VisitEndsExactly | src/library/os/linux/icmp_controller.cc:299-311 | whatever the ids, one visit of a sweep takes out exactly the session attended if expired, and if refused as unreachable every session with its id |
| SessionLaws.SweepStaysExactly | src/library/os/linux/icmp_controller.cc:145-151 | in every run, whatever the ids, a sweep leaves a session if and only if it was not past its deadline at its visit and no send with its id was refused as unreachable; who goes is logged once, who stays is not |
| SessionLaws.SurvivorsInTime | src/library/os/linux/icmphost.cc:46-57 | whoever survives a sweep was live before it with the same deadline, and that is at or after the clock read at its visit |
| SessionLaws.LateSweepDrains | src/library/os/linux/icmp_controller.cc:144-156 | a sweep later than every deadline leaves nobody live or busy and the listener down |
| SessionLaws.NoneOutlives | src/library/os/linux/icmp_controller.cc:144-156 | whatever follows a sweep, whoever was live before it and still is has its deadline at or after the sweep's clock |
| SessionLaws.ProbeBound | src/library/os/linux/icmphost.cc:44-58 | a session that lives D past its start sends at most D / interval + 1 packets under any schedule of sweeps |
| SessionLaws.ProbeBoundFromOpening | src/library/os/linux/icmphost.cc:28-58 | and from its opening on, for any deadline D past the start |
| SessionLaws.AtMostTwoProbes | src/library/os/linux/icmphost.cc:31 | with the code's deadline, in every run, one or two, and the 16-bit counter does not wrap |
| SessionLaws.EndedWithinBound | src/library/os/linux/icmphost.cc:127-137 | every ended session of a run had sent one packet or two |
| SessionLaws.TwoProbesHappen | src/library/os/linux/icmphost.cc:44-58 | two packets do happen |
| SessionLaws.DeadlineIgnoresTimeout | src/library/os/linux/icmphost.cc:31 | the deadline is the one timeout() asks for if and only if timeout and interval are equal |
| Netlink.Controller.HandleEvent | src/library/os/linux/netlink.cc:55-102 | for each message before the first DONE or ERROR every listener of its type is called once, in order, however callbacks come back |
| Netlink.Controller.Walk | src/library/os/linux/netlink.cc:70-101 | the pointer and length loop dispatches exactly the messages of the batch and stays inside it |
| Netlink.Controller.DeliverMessage | src/library/os/linux/netlink.cc:82-100 | a throwing callback does not keep later listeners from being called |
| Netlink.DeliverExactly | src/library/os/linux/netlink.cc:82-100 | a message calls exactly the listeners whose type equals its own, each once, with its data, in registration order: by count and by position |
| Netlink.DispatchExactly | src/library/os/linux/netlink.cc:70-101 | the same for a whole batch, call by call |
| Netlink.AlignedNeverOverruns | src/library/os/linux/netlink.cc:70 | over a 4-aligned batch the unsigned remaining length never goes below zero |
| Netlink.SafeLengthsExactly | src/library/os/linux/netlink.cc:70 | no batch of a length is overrun if and only if the length is a multiple of four or too short for a header |
| Netlink.MessagesOfEncoding | src/library/os/linux/netlink.cc:70 | walking encoded messages gives them back, and then whatever follows |
| Netlink.EncodedBatch | src/library/os/linux/netlink.cc:70-101 | an encoded batch is never overrun and gives back its messages |
| Netlink.MessagesUntilStop | src/library/os/linux/netlink.cc:72-80 | nothing after a DONE or ERROR is looked at |
| Netlink.Controller.PushBack | src/library/os/linux/netlink.cc:104-134 | registers first, then opens, binds and watches, with each failure's state |
| Netlink.Controller.Remove | src/library/os/linux/netlink.cc:136-151 | takes out an owner's listeners in order and closes the socket when none is left |
| Netlink.RemovalSilencesOnly | src/library/os/linux/netlink.cc:139-141 | removing an owner takes exactly its callbacks out of every later dispatch |
| Netlink.RemovedDispatch | src/library/os/linux/netlink.cc:136-151 | after a removal each later dispatch makes exactly the calls it would have made to other owners, in order |
| Netlink.ListenersExactly | src/library/os/linux/netlink.cc:104-151 | over every history the listeners are exactly those pushed and not dropped with their owner since, in the order they were pushed, whatever became of the socket |
| Netlink.PushedExactly | src/library/os/linux/netlink.cc:104-134 | a registration returns normally if and only if there is a socket or one is made and bound; otherwise it throws the failing call's error, and the listener is kept all the same |
| Netlink.StuckUntilEmptied | src/library/os/linux/netlink.cc:109-151 | such a registry stays unwatched until its last listener is removed |
| Netlink.StuckExactly | src/library/os/linux/netlink.cc:109-132 | over every history the open socket goes back to one registration, has been open since, and is unwatched if and only if that registration failed to bind it |
| Netlink.BindFailureSticks | src/library/os/linux/netlink.cc:127-129 | one registration whose bind fails gets there, and the next returns normally and is not watched |
| Netlink.NeverStuckWithoutBindFailure | src/library/os/linux/netlink.cc:127-132 | without a bind failure it never happens |
| Gateway.Agent.Walk | src/library/os/linux/defaultgateway.cc:164-209 | the nested loops take the attributes of the main table's routes in order until one throws, whatever was received and whatever lies behind it |
| Gateway.Agent.WalkAttributes | src/library/os/linux/defaultgateway.cc:177-207 | the inner loop, for one route |
| Gateway.Agent.Detect | src/library/os/linux/defaultgateway.cc:163-226 | throws with the old address but the interface stored so far, or stores what was found and reports a change if and only if the address differs; for any bytes received, up to a full buffer |
| Gateway.SlackSuffices | src/library/os/linux/defaultgateway.cc:128-129 | the walk never reads more than five bytes past what was received, whatever that was |
| Gateway.InBoundsIgnoresBehind | src/library/os/linux/defaultgateway.cc:164-209 | a walk whose reads lie inside the buffer sees the same whatever lies behind |
| Gateway.TakeAllExactly | src/library/os/linux/defaultgateway.cc:183-205 | the walk throws if and only if some gateway attribute has more than 16 attribute bytes left, and then holds the last gateway and interface before the first such; otherwise those of all the attributes |
| Gateway.LastOfExactly | src/library/os/linux/defaultgateway.cc:183-205 | the last word of a type by position, and the earlier value where there is none |
| Gateway.DetectAgain | src/library/os/linux/defaultgateway.cc:220-226 | detecting again on the same dump reports no change, or throws again, and leaves address and interface as they are |
| Gateway.AttrsReadBack | src/library/os/linux/defaultgateway.cc:177-181 | walking encoded attributes gives them back, in bounds |
| Gateway.DumpReadBack | src/library/os/linux/defaultgateway.cc:164-209 | walking a dump gives exactly the attributes of its main-table routes, and reads inside the buffer if and only if the last message is a route or its table byte still lies inside |
| Gateway.ShortEndReadsBehind | src/library/os/linux/defaultgateway.cc:170-173 | a buffer full to a last message of less than 21 bytes is read behind its end |
| Gateway.FullBufferReadsBehind | src/library/os/linux/defaultgateway.cc:128-173 | such a dump of 4096 bytes |
| Gateway.DetectionOfDump | src/library/os/linux/defaultgateway.cc:163-226 | what detection reports and stores for a dump, in terms of its routes and whatever lies behind it, the interface left by a throw included |
| Gateway.PlainGatewayRefusedExactly | src/library/os/linux/defaultgateway.cc:192-199 | a gateway of four bytes is refused if and only if more than eight bytes of attributes follow it in its route |
| Gateway.PlainGatewayThrows | src/library/os/linux/defaultgateway.cc:192-199 | a route with gateway, interface and priority makes detection throw |
| Prefix.BuildMask | src/library/ip/subnet.cc:66-73 | the shifting loop yields 2^32 - 2^(32 - min(bits, 32)), for every count |
| Prefix.MaskedEqualExactly | src/library/ip/subnet.cc:84-90 | masked addresses are equal if and only if their top min(bits, 32) bits agree |
| Prefix.AndSwapped | src/library/ip/subnet.cc:74-85 | masking commutes with reversing the bytes |
| Prefix.MaskedInNetworkOrder | src/library/ip/subnet.cc:74-90 | so the test in network order with the mask through htonl means the same on either host |
| Prefix.StoreHtonl | src/library/ip/subnet.cc:74 | htonl puts the most significant byte first in memory on either host |
| Prefix.HoldsExactly | src/library/ip/subnet.cc:57-92 | membership is: an IPv4 subnet, and equal addresses under the mask of its length in network order |
| Prefix.ContainsV4 | src/library/ip/subnet.cc:57-92 | true if and only if the subnet is IPv4 and the top bits agree; the second conjunct of the return adds nothing |
| Prefix.Contains | src/library/ip/subnet.cc:99-115 | the dispatch: an empty address is in an empty subnet, IPv6 and others throw |
| Prefix.ByteOrderFree | src/library/ip/subnet.cc:57-92 | the same addresses on the wire give the same answer on either host |
| Prefix.NestedOrDisjoint | src/library/ip/subnet.cc:57-92 | two prefixes that share an address are nested, as in section 3.1 of RFC 4632 |
| Interfaces.CountBits | src/library/os/linux/subnet.cc:62-70 | the loop over the 64-bit value ends within 64 turns and counts each bit of the netmask once |
| Interfaces.ContiguousExactly | src/library/os/linux/subnet.cc:62-70 | the count rebuilds the netmask if and only if no zero bit stands above a one |
| Interfaces.DirectTestExactly | src/library/ip/subnet.cc:70-90 | contains with the counted bits is the direct test against the netmask, for all addresses, if and only if the netmask is contiguous |
| Interfaces.DirectTest | src/library/os/linux/subnet.cc:59-73 | the same for an interface and an address in network order |
| Interfaces.IpState.FindNetwork | src/library/os/linux/subnet.cc:46-78 | the search stops at the first usable interface whose network has the address, stores that network, and otherwise stores nothing |
| Interfaces.IpState.FindNetworkV6 | src/library/ip/state.cc:75-84 | the IPv6 comparison throws if and only if some interface is usable |
| Interfaces.IpState.CompareV4 | src/library/ip/state.cc:63-72 | local, remote and range comparison, a failing getifaddrs included |
| Interfaces.IpState.Compare | src/library/ip/state.cc:142-159 | the dispatch by address family, with the state's subnet afterwards |
| Interfaces.RangeExactly | src/library/ip/state.cc:132-155 | a fixed range answers, whatever the interfaces, an IPv4 address by the direct test under its mask, an empty one by whether it is empty itself, and throws on any other; it never changes |
| Interfaces.OtherFamiliesExactly | src/library/ip/state.cc:75-84 | what an internal state answers to addresses that are not IPv4 |
| Interfaces.SearchExactly | src/library/os/linux/subnet.cc:46-78 | the search finds the first covering interface in list order, and none if and only if none covers |
| Interfaces.CoversExactly | src/library/os/linux/subnet.cc:48-73 | an interface covers an address if and only if it has an IPv4 address and a netmask and the addresses agree under the mask of as many ones as the netmask has |
| Interfaces.LocalExactly | src/library/ip/state.cc:63-72 | local if and only if some usable interface's network contains the address; the subnet held becomes the first such, or stays |
| Interfaces.ComplementExactly | src/library/ip/state.cc:63-84 | remote answers the complement of local, or throws with it, if and only if the address is not empty |
| Interfaces.LocalByNetmask | src/library/ip/state.cc:63-72 | with contiguous netmasks local means: on the network of some usable interface by that interface's own netmask |
| Interfaces.OwnAddressIsLocal | src/library/ip/state.cc:63-72 | a usable interface's own address is local whatever its netmask |
| Interfaces.HeldIsLatest | src/library/ip/state.cc:65-66 | over any sequence of comparisons the subnet held is the one the latest successful search found, or none |
| Interfaces.EmptyUntilMatched | src/library/ip/state.cc:151-152 | an empty address compares as true if and only if no search has succeeded yet |
| IpAgent.Agent.SetResponse | src/library/ip/agent.cc:44-65 | nothing for Invalid; otherwise the first configured state of the response, or the predefined one, and an update |
| IpAgent.Agent.Refresh | src/library/ip/agent.cc:137-157 | the controller's insert when there is an address, the check is on and no session is under way; never refused as busy; throws only when the start fails |
| IpAgent.Agent.FindState | src/library/ip/agent.cc:116-123 | the first IP state that matches, unless one throws before; the states after it are not asked |
| IpAgent.Agent.ComputeState | src/library/ip/agent.cc:112-134 | the state shown, by level, or the exception with the IP state reset |
| IpAgent.StateForShows | src/library/ip/agent.cc:50-61 | the state set is one of the response, the first configured one if any |
| IpAgent.ShowsTheLastResponse | src/library/ip/agent.cc:44-65 | after any callbacks the agent shows the last response that is not Invalid and has reported one update for each |
| IpAgent.UpdatesExactly | src/library/ip/agent.cc:46-48 | a callback is an update if and only if it is not Invalid, repeated or not |
| IpAgent.ShowsTheLatestSession | src/library/ip/agent.cc:44-65 | over every run of the controller: one update for each of the agent's sessions that ended with an answer, and the latest of these shown |
| IpAgent.RefreshOpensExactly | src/library/ip/agent.cc:152-154 | in every run a refresh is never refused as busy, and opens exactly one session if and only if there is an address, the check is on, the worker has no live session and the listener is up or starts |
| IpAgent.LostAddressForgetsExactly | src/library/ip/agent.cc:140-148 | after the address is lost the agent shows no answer, or an Invalid one, if and only if it had shown none |
| IpAgent.PickExactly | src/library/ip/agent.cc:117-123 | which state answers: the first true one with only false ones before it, a throwing one, or nobody |

## Left out

- IcmpController.Controller.Sweep: requires that the sweep does not lose the node it has captured, because after that the code's behaviour is undefined (SessionIds.LosesExactly).
- Netlink.Controller.HandleEvent: requires that the batch is not overrun, because behind the end of what was received the code reads an uninitialised buffer (Netlink.SafeLengthsExactly says which lengths are safe).
- Gateway.Agent.Detect: a read behind the buffer, undefined in C, finds arbitrary bytes; the interface is kept by its index, since if_indextoname belongs to the system.
- Checksum.InChksum: requires a sum that fits an int, since signed overflow is undefined; OverflowBound says for which lengths that is certain.
- Errors while reading flags of the ICMP socket: one refusal stands for getprotobyname, socket and fcntl failing.
- Round-trip times: the values are not elapsed times (nanoseconds are added to microseconds), and nothing depends on them.
- The response's source address and the wire layout of destination-unreachable and time-exceeded messages.
- Destruction of the controller, and workers destroyed while the controller is used; memory effects of threads.
- The request and the receive loop of gateway detection (lines 97-161), which always stops after one receive.
- The controller records callbacks in the order it makes them; what they do to an agent is modelled on that sequence (IpAgent.ShowsTheLatestSession), not inside the locked region.
- for_each as a function of any closure: the search is modelled with the two closures the repository gives it.
- freeifaddrs on every path of the interface search.
- Parsing of subnets and addresses, formatting, translations, logging and module registration: table lookups and wrappers around libudjat.
- Levels of states are integers, and the levels of the predefined ICMP states are a parameter.
- super::computeState and the configuration of states: its level is a parameter, and the lists of states are fixed.
- DNS, network interface agents, property getters and the Windows sources.
