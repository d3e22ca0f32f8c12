# AOO for Max: verified model of the stateful kernels

AOO for Max wraps an audio-over-network library as Max objects. Most of the code is glue, but
each object keeps state that has to stay right over long runs: a filtered clock, message queues
with a one-shot clock, the lists of peers, groups and sinks, reference-counted shared objects,
and a codec between atoms and bytes. This project models those kernels in Dafny and proves what
they keep over every run.

Every kernel has two layers. The in-place code of the original is a class with the same fields
and loops (`Dejitter`, `AooClient`, `AooReceive`, `Node`, `Patcher`, `DejitterHost`, `AooSend`,
`PriorityQueue`), or a method over an array. Each of its operations is proved to take exactly
one step of a specification, and the theorems are about all runs of the specification, in any
interleaving.

| file | content |
|---|---|
| `Dejitter.dfy`, `SharedDejitter.dfy` | the dejitter clock, and the one instance that clients share |
| `PriorityQueue.dfy`, `Scheduling.dfy` | the min-queue, and scheduling with a queue and a one-shot clock |
| `Traces.dfy`, `Membership.dfy`, `Replies.dfy` | what a log says about a list entry; peers, groups, connected flag; the reply list between the threads |
| `PeerMail.dfy`, `ClientRun.dfy`, `Client.dfy` | peer messages; lists and messages together; the aoo.client object |
| `Receiver.dfy` | the message queue of aoo.receive~ |
| `NodeRegistry.dfy` | the network nodes that objects on one port share |
| `SinkList.dfy` | the sinks of aoo.send~ and what it announces |
| `Atoms.dfy`, `DataCodec.dfy`, `MessageAtoms.dfy`, `FormatCodec.dfy` | atoms, data codec, its callers, formats |

`dafny verify dfyconfig.toml` checks the project.

## Findings

Places where the code does not do what its names or comments say. Each is kept as it is, with a
concrete input and the exact condition.

- A delta above `DEJITTER_MAXDELTA` starts catching up only if its tick is not short. Input:
  `BigShortDeltaIsForgotten`. Condition: `CatchesUpIff`.
- `clock_getsystimeafter` multiplies where its name says "after" (`AfterIff`), so a delay below
  one millisecond is due in the past (`FutureIff`). That by itself does not disturb the order of a
  run, but it can (`ShortDelayBreaksOrder`). A run is in order if and only if every item that is
  sent was enqueued while nothing due later had left (`DispatchOrderIff`); delays of at least a
  millisecond suffice (`LongDelaysKeepOrder`).
- "Should never happen because the peer should have been added": a queued message is refused if
  its sender leaves while it waits. Input: `PeerLeavesWhileMessageWaits`. Condition:
  `NothingRefusedIff` and, from the log alone, `RefusalsTraced`.
- A client that is not connected can hold groups and peers. Input: `LateReplyAfterDisconnect`.
  Condition: the lists stay empty while not connected if and only if no join event and no join
  reply is executed then (`EmptyUnlessConnectedIff`); for one moment of a run,
  `DisconnectedListsIff`.
- A sender or receiver that could not get a node does not try again when it is sent the same port.
  Input: `SamePortIsNotRetried`. Condition: a message places the object anew if and only if it
  asks for another port or id (`PlacementIff`).
- Integer atoms in a format message are ignored, because only float atoms are recognised
  (`IntegersAreIgnored`). Input: `TypedIntegersAreLost`. Condition: a message is set as it was
  meant if and only if it is refused anyway, for its codec name or its last argument, or each
  integer is the default of its position (`SetAsMeantIff`, `RefusedIff`). The comment above the
  Opus branch lists `auto` as an application type; the code refuses it (`OpusAcceptsIff`).
- A 64-bit integer can come back changed from the codec. Input: `BeyondTwo53`. Condition: it
  survives if and only if a double can hold it (`EncodeDecode`, `DecodeEncode`), which is so for
  the numbers with a significand of 53 bits (`DoubleMeaning`).
- A sink whose address cannot be written down is listed but never announced. Input:
  `InvalidSinkIsListed`. Condition: list and announcements agree all through a run if and only
  if the user never adds such a sink (`AgreementIff`).

## Model

| member | source | states |
|---|---|---|
| Dejitters.Dejitter.Update | source/common/aoo_max_dejitter.cpp:22-74 | the in-place tick: nominal step after a short tick without a big delta behind it, else the later of adjusted and real time; remembers the reading and any long delta |
| Dejitters.ShortIff | source/common/aoo_max_dejitter.cpp:43-43 | the tolerance quotient means: earlier than 90% of the period |
| Dejitters.RememberedState | source/common/aoo_max_dejitter.cpp:57-73 | after any run the filter remembers the last reading and the last delta of a long tick |
| Dejitters.ClosedForm | source/common/aoo_max_dejitter.cpp:32-73 | after any run, also with readings that go back, the adjusted time is exactly the maximum of each reading plus the periods of the nominal ticks since |
| Dejitters.NeverGoesBack | source/common/aoo_max_dejitter.cpp:53-56 | the adjusted time never decreases between any two points of a run |
| Dejitters.Sandwich | source/common/aoo_max_dejitter.cpp:32-73 | over every run the adjusted time is monotonic, at least every reading, and at most some reading plus the nominal time since |
| Dejitters.BoundedLead | source/common/aoo_max_dejitter.cpp:43-58 | if the real clock never loses more than a slack against nominal time, the adjusted time leads it by at most that slack |
| Dejitters.CatchesUpIff | source/common/aoo_max_dejitter.cpp:43-58 | a tick yields the later of old and real time if and only if it is long or the last long delta exceeds the maximum; otherwise it yields strictly more, the nominal step |
| Dejitters.NominalRate | source/common/aoo_max_dejitter.cpp:41-47 | through any stretch of short ticks without a blocked scheduler the clock advances by exactly the nominal time |
| Dejitters.CatchUpAfterBigDelta | source/common/aoo_max_dejitter.cpp:44-51 | from a long tick with a big delta through the next long tick the clock is the later of its last value and real time |
| Dejitters.BigShortDeltaIsForgotten | source/common/aoo_max_dejitter.cpp:43-47 | a big delta on a short tick does not start catching up: a concrete run with blocks of 90 ms |
| Dejitters.CoarseBlocksDegenerate | source/include/aoo_max_dejitter.h:10-11 | when 90% of every period exceeds the maximal delta, the filter only holds time back for ever after the first long tick |
| Dejitters.TransparentIff | source/common/aoo_max_dejitter.cpp:33-57 | adjusted and real time agree at every tick of a run if and only if readings never go back and no tick is nominal |
| Dejitters.LongTicksAreTransparent | source/common/aoo_max_dejitter.cpp:52-57 | without short ticks the filter is the identity |
| SharedDejitters.DejitterHost.Get | source/common/aoo_max_dejitter.cpp:76-90 | finds the shared instance and counts the new holder, or creates it with count one; the clock state of an existing one is untouched |
| SharedDejitters.DejitterHost.Release | source/common/aoo_max_dejitter.cpp:92-99 | takes one holder off the count, frees and unregisters the instance exactly for the last one; the negative-count branch is dead |
| SharedDejitters.DejitterHost.ClientNew | source/common/aoo_max_client.cpp:46-48 | a new client holds the shared instance; the invariant (one instance, count equals holders, not freed) is kept |
| SharedDejitters.DejitterHost.LetGo | source/common/aoo_max_client.cpp:74-77 | one holder lets go; the instance is freed exactly when it was the last |
| SharedDejitters.DejitterHost.ClientDejitter | source/aoo.client/aoo_client.cpp:136-148 | the dejitter message sets who uses the dejitter, frees it exactly when the last user lets go, and never disturbs the clock of the others |
| SharedDejitters.DejitterHost.ClientFree | source/common/aoo_max_client.cpp:65-80 | a client that goes away lets go of the shared instance, with the same guarantees |
| PriorityQueues.RootIsEarliest | source/include/aoo_max_common.hpp:38-44 | in the heap order by due time, the root is due no later than any item |
| PriorityQueues.PriorityQueue.TopIsEarliest | source/include/aoo_max_common.hpp:43-44 | the top of the queue is one of its earliest items |
| PriorityQueues.PriorityQueue.Push | source/common/aoo_max_client.cpp:276-276 | pushing keeps the heap order and adds exactly the item |
| PriorityQueues.PriorityQueue.Pop | source/common/aoo_max_client.cpp:13-13 | popping keeps the heap order and takes out exactly the top |
| Scheduling.DrainIsExact | source/common/aoo_max_client.cpp:8-17 | a tick sends every copy of every item due by now and leaves every copy of all others |
| Scheduling.DrainIsUnique | source/common/aoo_max_client.cpp:8-22 | items and time determine what a tick sends, what it leaves and what it arms, up to simultaneous items |
| Scheduling.TickMakesProgress | source/common/aoo_max_client.cpp:18-22 | when the armed clock fires, something is sent |
| Scheduling.ArmedInvariant | source/common/aoo_max_client.cpp:8-22 | in every reachable state the one-shot clock is armed for exactly the earliest item, and for nothing if the queue is empty |
| Scheduling.TimelyIff | source/common/aoo_max_client.cpp:18-22 | over every run, no item is ever found waiting past its due time if and only if nothing but a tick happens after the time the one clock is armed for |
| Scheduling.OnTimeIff | source/common/aoo_max_client.cpp:8-22 | over every run, each tick sends something and every item leaves exactly at its due time if and only if each tick happens at the time the clock is armed for |
| Scheduling.QueueConservation | source/common/aoo_max_client.cpp:3-23 | over every run, items enqueued are items sent plus items queued |
| Scheduling.WaitingCameAfter | source/common/aoo_max_client.cpp:3-23 | a waiting item that is due before one that has left was enqueued after that one left |
| Scheduling.DispatchOrderIff | source/common/aoo_max_client.cpp:3-23 | the items of a run leave in order of due time, across ticks, if and only if each one that is sent was enqueued while nothing due later had left; no hypothesis on the times |
| Scheduling.DispatchOrder | source/common/aoo_max_client.cpp:3-23 | in particular if logical time flows forward and all due times lie in the future |
| Scheduling.LongDelaysKeepOrder | source/common/aoo_max_common.cpp:333-336 | with the due times that the code computes, delays of at least a millisecond keep the whole run in order |
| Scheduling.SentExactlyWhatWasDue | source/common/aoo_max_client.cpp:9-16 | after a tick, the whole run has sent each item due by then as often as it was enqueued, and no later one, for any due times |
| Scheduling.FutureIff | source/common/aoo_max_common.cpp:333-336 | the computed system time lies in the future if and only if the delay is at least one millisecond |
| Scheduling.AfterIff | source/common/aoo_max_common.cpp:333-336 | the computed time is the system time plus the delay if and only if (systime - 1)(delay - 1) is 1 |
| Scheduling.ShortDelayBreaksOrder | source/common/aoo_max_common.cpp:333-336 | with the due times that the code computes a run can leave the order: a concrete one |
| Membership.ListsAreUnique | source/common/aoo_max_client.cpp:345-352 | no peer key and no group is ever listed twice, for every log of effects |
| Membership.ConnectedTrace | source/aoo.client/aoo_client.cpp:282-289 | connected if and only if a successful connect reply has no later disconnect of either kind |
| Traces.CurrentIff | source/common/aoo_max_client.cpp:343-376 | a list that keeps the first record and drops it on removal holds exactly the record of the first join since the last removal |
| Membership.GroupTrace | source/aoo.client/aoo_client.cpp:356-361 | a group record is listed if and only if it is that of the first join reply of its group since the last entry that drops it, and none follows |
| Membership.PeerTrace | source/common/aoo_max_client.cpp:343-376 | a peer record is listed if and only if it is that of the first join of its key since the last removing entry, and none follows; a leave reply counts only while the group is listed, a disconnect message only while connected |
| Membership.KeyTrace | source/common/aoo_max_client.cpp:300-375 | a key is listed, and then exactly once, if and only if some join of it has no later removing entry |
| Membership.EmptyUnlessConnectedIff | source/aoo.client/aoo_client.cpp:331-345 | the lists are empty whenever the client is not connected, all through a log, if and only if no join event and no join reply is executed while it is not |
| Membership.EmptyIff | source/aoo.client/aoo_client.cpp:412-435 | each list is empty if and only if every join in the log is followed by an entry that removes it |
| Membership.OutletTellsTheTruth | source/aoo.client/aoo_client.cpp:331-345 | the last output of the connection outlet, if any, always is the connected flag |
| Membership.OutletTrace | source/aoo.client/aoo_client.cpp:282-303 | all outputs of the connection outlet, read off the log: 1 for a successful connect reply, 0 for a loss of the server, and 0 for a disconnect message while connected or a failed reply while not |
| Membership.ListsAreInOrder | source/common/aoo_max_client.cpp:343-376 | for every log, peers and groups are listed in the order in which they joined |
| Replies.ExactlyOnceInOrder | source/common/aoo_max_client.cpp:31-41 | under any interleaving with failing try-locks, executed replies followed by pending ones are the pushed ones, in push order |
| Replies.LockRunsAll | source/common/aoo_max_client.cpp:31-41 | after a tick with the lock nothing is pending and all replies pushed so far have been executed; without the lock nothing has changed |
| Replies.EventsTakeEffect | source/common/aoo_max_client.cpp:291-382 | the log only grows, and apart from replies it holds exactly the events of the run, in order |
| Replies.RunFollowsLog | source/common/aoo_max_client.cpp:25-44 | after any interleaving the lists are what the log of effects executes to |
| Replies.ListsOfRun | source/include/aoo_max_client.h:106-109 | the trace theorems for peers, groups and the connected flag under any interleaving of both threads, with each pushed reply at most once in the log |
| Replies.DisconnectedListsIff | source/aoo.client/aoo_client.cpp:351-361 | a client holds a group, or a peer, while not connected if and only if no connect reply stands in its log but a join does |
| Replies.LateReplyAfterDisconnect | source/aoo.client/aoo_client.cpp:351-361 | a pending join reply that lands after a disconnect leaves a group listed while not connected: a concrete run |
| PeerMail.DelayOf | source/common/aoo_max_client.cpp:262-268 | the delay of a timed message leads from now to its time, plus the extra delay only when scheduling; that of an immediate one is 0 |
| PeerMail.FateIff | source/common/aoo_max_client.cpp:259-289 | from the time of an arrival and the settings alone: which messages are queued, which discarded; the message is what arrived, field by field, with its delay |
| PeerMail.MessageConservation | source/common/aoo_max_client.cpp:259-289 | over every run, what arrived, with sender, type, bytes and delay, is with multiplicity what was dispatched, refused, discarded or is queued |
| PeerMail.DispatchedExactly | source/common/aoo_max_client.cpp:82-109 | over every run, of all messages it tries to dispatch exactly those whose sender is listed at that moment are dispatched and all others refused, both in order |
| PeerMail.DiscardsExactlyLateOnes | source/common/aoo_max_client.cpp:266-280 | the discarded messages are exactly the timed ones that were late, after the extra delay, with scheduling and discard_late on |
| PeerMail.NothingRefusedIff | source/common/aoo_max_client.cpp:82-90 | a run refuses no message if and only if each one it dispatches comes from a peer listed at that moment |
| PeerMail.QueueTheorems | source/common/aoo_max_client.cpp:271-276 | in every reachable state the queue clock is armed for the earliest message; messages leave in order of due time if and only if none that is sent was enqueued after one due later had left, in particular in well-timed runs |
| ClientRun.ListedIffPeer | source/common/aoo_max_client.cpp:183-190 | in any run of lists and messages, the lookup at dispatch succeeds if and only if the log holds a join without a later removal |
| ClientRun.RefusalsTraced | source/common/aoo_max_client.cpp:82-90 | at any point of a joint run, no message has been refused if and only if every dispatched one came from a peer of the log |
| ClientRun.PeerLeavesWhileMessageWaits | source/common/aoo_max_client.cpp:85-90 | the refusal that should never happen does: a run of a join, a message, a leave and a queue tick |
| ClientRun.NothingLost | source/common/aoo_max_client.cpp:259-289 | at any point of a joint run, every message that arrived is accounted for unchanged, while lists, replies and settings change in any way |
| ClientRun.CallExtendsRun | source/common/aoo_max_client.cpp:25-44 | any call of the client that is one step from the state a run has reached extends the run |
| ClientRun.TickExtendsRun | source/common/aoo_max_client.cpp:25-44 | a tick extends any run by the calls it stands for: each polled event or message, in order, then the replies; with the lock all replies pushed so far are then executed and none is pending, without it only the polled events count |
| Clients.AooClient.FindPeer | source/common/aoo_max_client.cpp:183-190 | the search loop finds a peer of the key if and only if one is listed |
| Clients.AooClient.FindGroup | source/common/aoo_max_client.cpp:216-223 | the search loop finds the group if and only if it is listed |
| Clients.AooClient.AddPeer | source/common/aoo_max_client.cpp:343-358 | the in-place join is one specified step |
| Clients.AooClient.RemovePeer | source/common/aoo_max_client.cpp:359-376 | the erase loop takes out the first record of the key and nothing else |
| Clients.AooClient.Handle | source/common/aoo_max_client.cpp:291-382 | every membership event and the disconnect message is one specified step |
| Clients.AooClient.EraseGroupPeers | source/aoo.client/aoo_client.cpp:427-435 | erasing while iterating leaves exactly the peers outside the group, in order |
| Clients.AooClient.LeaveGroup | source/aoo.client/aoo_client.cpp:412-441 | a successful leave reply drops the group and its peers, or changes nothing if the group is not listed |
| Clients.AooClient.RunReply | source/aoo.client/aoo_client.cpp:277-304 | each reply is one specified step |
| Clients.AooClient.PushReply | source/include/aoo_max_client.h:106-109 | appends the reply, and changes nothing else |
| Clients.AooClient.RunPending | source/common/aoo_max_client.cpp:31-41 | runs all pending replies in order and clears them, or does nothing without the lock |
| Clients.AooClient.Tick | source/common/aoo_max_client.cpp:25-44 | delivers the polled membership events and peer messages in order, then runs the replies: the step of `TickExtendsRun`; with the lock no reply is left |
| Clients.AooClient.DispatchMessage | source/common/aoo_max_client.cpp:82-109 | puts out the message if its sender is listed, refuses it otherwise |
| Clients.AooClient.Schedule | source/common/aoo_max_client.cpp:269-276 | enqueues and re-arms the clock exactly if the message is due before all others |
| Clients.AooClient.HandleMessage | source/common/aoo_max_client.cpp:259-289 | queues, discards or dispatches a message as specified, and keeps the clock armed for the earliest |
| Clients.AooClient.QueueTick | source/common/aoo_max_client.cpp:3-23 | terminates; dispatches all that is due, in order, nothing else, and re-arms the clock for the rest |
| Receivers.AooReceive.HandleStreamMessage | source/aoo.receive_tilde/aoo_receive_tilde.cpp:46-65 | a message with positive offset is one enqueue step of the scheduler, all others are put out at once, or dropped if their endpoint is not valid |
| Receivers.AooReceive.QueueTick | source/aoo.receive_tilde/aoo_receive_tilde.cpp:24-44 | one tick of the scheduler; exactly the due messages are put out, or dropped for an endpoint that is not valid, in order; the clock is re-armed |
| NodeRegistry.OneClientInvariant | source/common/aoo_max_node.cpp:261-274 | in every reachable state at most one client is attached to each port |
| NodeRegistry.PlacementIff | source/aoo.send_tilde/aoo_send_tilde.cpp:151-187 | each command, object by object: an accepted one gives its object the id and port asked for, and a node if and only if the port is not 0, somebody has its node or it can be set up, and no second client asks; a refused one changes nothing, a freed object is gone, all others stay |
| NodeRegistry.PlacementTrace | source/common/aoo_max_node.cpp:18-47 | at any point of a run an object is there if and only if it was placed and not freed since, with the id and port last asked for by an accepted command, and a node if and only if it could get one then |
| NodeRegistry.SamePortIsNotRetried | source/aoo.send_tilde/aoo_send_tilde.cpp:156-158 | a sender whose node could not be set up stays without one when sent the same port again: a concrete run |
| NodeRegistry.Patcher.RegisteredIff | source/common/aoo_max_node.cpp:18-47 | a node is registered for a port if and only if an object is attached to it; its count is the number of these, its client slot is taken if and only if a client is among them, and all node pointers are live and of the right port |
| NodeRegistry.Node.AddObject | source/common/aoo_max_node.cpp:257-292 | counts the object and takes a client into the free slot; refuses a second client without a change |
| NodeRegistry.Patcher.Get | source/common/aoo_max_node.cpp:18-47 | finds or creates the node of the port and adds the object; a refusal changes nothing |
| NodeRegistry.Patcher.Release | source/common/aoo_max_node.cpp:300-325 | takes the object off its node; frees and unregisters the node exactly with its last object; the negative-count branch is dead |
| NodeRegistry.Patcher.ClientNew | source/common/aoo_max_client.cpp:54-63 | constructing a client keeps all nodes right and attaches it as specified |
| NodeRegistry.Patcher.ClientSetPort | source/aoo.client/aoo_client.cpp:163-187 | the port message moves the client as specified and keeps all nodes right |
| NodeRegistry.Patcher.StreamNew | source/aoo.send_tilde/aoo_send_tilde.cpp:274-318 | constructing a sender or receiver keeps all nodes right and attaches it as specified |
| NodeRegistry.Patcher.StreamSet | source/aoo.send_tilde/aoo_send_tilde.cpp:151-187 | port and id messages move a sender or receiver as specified, or change nothing |
| NodeRegistry.Patcher.FreeObject | source/aoo.receive_tilde/aoo_receive_tilde.cpp:449-456 | freeing any object detaches it and keeps all nodes right |
| SinkList.CheckedLookupIsListed | source/aoo.send_tilde/aoo_send_tilde.cpp:448-504 | a checked lookup that succeeds, by peer name or by host, yields a listed sink |
| SinkList.CheckedLookupIff | source/aoo.send_tilde/aoo_send_tilde.cpp:448-504 | the lookup for "remove" yields exactly the listed endpoint that the arguments stand for, first by names and id, else by resolved host and id |
| SinkList.UncheckedLookupIff | source/aoo.send_tilde/aoo_send_tilde.cpp:448-504 | the lookup for "add" yields an unlisted endpoint if and only if the arguments ask for it |
| SinkList.SinkTrace | source/aoo.send_tilde/aoo_send_tilde.cpp:343-399 | for every run, a sink is listed, once, if and only if it is that of the first command to add its endpoint since the last one that removes it, and none follows |
| SinkList.CommandDecides | source/aoo.send_tilde/aoo_send_tilde.cpp:543-623 | a command that asks for an endpoint lists it, one that stands for it unlists it, every other leaves it |
| SinkList.SinksAreInOrder | source/aoo.send_tilde/aoo_send_tilde.cpp:343-349 | for every run the list is in the order in which its sinks were added |
| SinkList.ChangesAreAnnounced | source/aoo.send_tilde/aoo_send_tilde.cpp:343-399 | in every run a command announces a valid endpoint if and only if it lists or unlists it, and then once |
| SinkList.RemovalsInOrder | source/aoo.send_tilde/aoo_send_tilde.cpp:509-533 | clearing the list announces each removal, in list order |
| SinkList.NoFaults | source/aoo.send_tilde/aoo_send_tilde.cpp:381-399 | no run of commands and events reaches the "BUG" line for removing an unlisted sink |
| SinkList.AnnouncementsMatchList | source/aoo.send_tilde/aoo_send_tilde.cpp:343-399 | for each valid endpoint the announcements alternate from "add" on, and it is listed, once, if and only if the last one was "add" |
| SinkList.InvalidIsSilent | source/aoo.send_tilde/aoo_send_tilde.cpp:351-357 | an endpoint that is not valid is never announced and listed at most once |
| SinkList.AgreementIff | source/aoo.send_tilde/aoo_send_tilde.cpp:550-584 | list and announcements agree on all endpoints, all through a run, if and only if the user never adds, while there is a node, an unlisted sink whose address is not valid |
| SinkList.InvalidSinkIsListed | source/aoo.send_tilde/aoo_send_tilde.cpp:343-358 | a sink with an invalid address is listed without an announcement: a concrete run |
| SinkList.AooSend.FindSink | source/aoo.send_tilde/aoo_send_tilde.cpp:366-374 | the search loop succeeds if and only if the endpoint is listed |
| SinkList.AooSend.Erase | source/aoo.send_tilde/aoo_send_tilde.cpp:381-399 | the erase loop removes the first record of the endpoint and announces it |
| SinkList.AooSend.EraseAll | source/aoo.send_tilde/aoo_send_tilde.cpp:509-533 | clears the list and announces each removal in list order |
| SinkList.AooSend.SinkArg | source/aoo.send_tilde/aoo_send_tilde.cpp:448-504 | the lookup of a sink from arguments, by name first, then by address |
| SinkList.AooSend.Handle | source/aoo.send_tilde/aoo_send_tilde.cpp:543-623 | each command, and each sink event of lines 87-106, is one specified step |
| DataCodec.UnsignedOfBytes | source/common/aoo_max_common.cpp:215-226 | reading back a number written to fixed-width bytes |
| DataCodec.BytesOfUnsigned | source/common/aoo_max_common.cpp:144-152 | writing back a number read from fixed-width bytes |
| DataCodec.EncodedBytes | source/common/aoo_max_common.cpp:210-230 | the bytes of an encoded number are those of the number without its fraction, in two's complement |
| DataCodec.FirstByteIsHighest | source/common/aoo_max_common.cpp:215-226 | the first byte is the most significant one |
| DataCodec.DoubleIff | source/common/aoo_max_common.cpp:150-152 | the conversion to double keeps an integer if and only if it is a multiple of the spacing there, as all up to 2^53 are |
| DataCodec.DoubleMeaning | source/common/aoo_max_common.cpp:150-152 | the integers a double can hold are those of a significand up to 2^53 times a power of two |
| DataCodec.NearestDouble | source/common/aoo_max_common.cpp:150-152 | the conversion yields a double, and no double is nearer |
| DataCodec.TiesToEven | source/common/aoo_max_common.cpp:150-152 | half way between two doubles, the even multiple of the spacing is taken |
| DataCodec.BeyondTwo53 | source/common/aoo_max_common.cpp:150-152 | the integer after 2^53 comes back changed |
| DataCodec.DecodedElement | source/common/aoo_max_common.cpp:210-230 | an encoded number decodes to the integer without its fraction for the short types, to the double nearest to that for 64 bits |
| DataCodec.ElementRoundTrip | source/common/aoo_max_common.cpp:210-230 | for the short types the decoded number lies between 0 and the one encoded, less than 1 from it; a number comes back unchanged if and only if it is integral and a double holds it |
| DataCodec.DecodeEncode | source/common/aoo_max_common.cpp:203-234 | a list of in-range numbers survives encoding and decoding if and only if each is integral and held by a double |
| DataCodec.EncodeDecode | source/common/aoo_max_common.cpp:114-161 | a buffer of whole integer elements survives decoding and encoding if and only if doubles hold all its integers |
| DataCodec.ShortTypesRoundTrip | source/common/aoo_max_common.cpp:144-155 | buffers of bytes, 16-bit and 32-bit integers always survive |
| DataCodec.DecodeCount | source/common/aoo_max_common.cpp:116-116 | the number of elements decoded is the size divided by the element size |
| DataCodec.EncodedAt | source/common/aoo_max_common.cpp:208-231 | the bytes of the k-th number are the k-th element of the buffer |
| DataCodec.DecodedAt | source/common/aoo_max_common.cpp:134-157 | the k-th element of the buffer is the k-th number decoded |
| DataCodec.FloatsThrough | source/common/aoo_max_common.cpp:210-216 | floats pass through their bit patterns of 4 or 8 bytes one by one |
| DataCodec.AtomsToData | source/common/aoo_max_common.cpp:203-234 | fills the buffer with the encoded atoms, or returns 0 and leaves it alone if it is too small |
| DataCodec.DataToAtoms | source/common/aoo_max_common.cpp:114-161 | writes type and elements to the slice and nothing outside it, or returns 0 and writes nothing if it is too small; the cursor stays within the data |
| MessageAtoms.PeerMessageAtoms | source/common/aoo_max_client.cpp:92-104 | the computed atom count is filled exactly |
| MessageAtoms.StreamMessageToAtoms | source/common/aoo_max_common.cpp:173-178 | channel, type and elements, exactly |
| MessageAtoms.StreamMessageAtoms | source/aoo.receive_tilde/aoo_receive_tilde.cpp:458-501 | the computed atom count is filled exactly, for payloads of at least one element |
| MessageAtoms.StreamAssertionIff | source/common/aoo_max_common.cpp:174-174 | the assertion on the atom count holds if and only if the payload has a whole element |
| MessageAtoms.MetadataAtoms | source/aoo.receive_tilde/aoo_receive_tilde.cpp:185-194 | the computed atom count for start and invite metadata is filled exactly |
| MessageAtoms.OutgoingBytes | source/common/aoo_max_client.cpp:141-145 | the computed byte count is filled exactly |
| MessageAtoms.MessageRoundTripIff | source/common/aoo_max_client.cpp:141-145 | atoms sent as an integer or byte type arrive as the type, "f" or its name, and the same numbers, a symbol as 0, if and only if each number is an integer that a double holds |
| FormatCodec.PrintSucceedsIff | source/common/aoo_max_common.cpp:13-95 | a format prints if and only if its codec and parameter are known and there is room |
| FormatCodec.AcceptedFormat | source/common/aoo_max_common.cpp:252-330 | what an accepted message sets, argument by argument: floats without their fraction or the defaults of each codec, the five bit depths, the application types |
| FormatCodec.ParsePrinted | source/common/aoo_max_common.cpp:13-95 | parsing a printed null, PCM or Opus format gives it back, whatever the defaults; only integral numbers and proper names are printed |
| FormatCodec.ParsePrintParse | source/common/aoo_max_common.cpp:236-330 | whatever is accepted, defaults included, prints and parses to the same format |
| FormatCodec.IntegersAreIgnored | source/common/aoo_max_common.cpp:236-250 | a format message means the same with its integer arguments replaced by placeholders |
| FormatCodec.RefusedIff | source/common/aoo_max_common.cpp:252-330 | a format message is refused if and only if its codec is unknown, its PCM bit depth is a float that is not 1, 2, 3, 4 or 8, or its Opus application type is present and not a known one, whatever the defaults |
| FormatCodec.SetAsMeantIff | source/common/aoo_max_common.cpp:236-330 | a format message is set as it was meant if and only if its arguments are refused or each of its integer arguments is the default of its position |
| FormatCodec.OpusAcceptsIff | source/common/aoo_max_common.cpp:302-319 | an Opus message is accepted if and only if its application type is missing, a placeholder or one of three; `auto` is refused |
| FormatCodec.TypedIntegersAreLost | source/common/aoo_max_common.cpp:236-250 | a format typed in integers is parsed to the defaults: a concrete message |

## Left out

- The AOO library, its sockets, threads and address resolution: their results are inputs of the steps.
- Rounding of floating point times, NaN and infinities, and wrap-around of time tags: times are exact reals.
- The narrowing of a message's delay from double to float when it is queued.
- Receivers.AooReceive.HandleStreamMessage: before DSP is on the sample rate is zero and the due time of a delayed message infinite; the branch is modelled, the infinite due time is not, because times are reals. A due time later than every tick stands for it: such a message is never sent (`SentExactlyWhatWasDue`).
- A queue tick of aoo.receive~ that has something due needs a node; after its port is set to 0 the object has none. The model takes the node as a precondition, as it does for a message put out at once.
- The logical-time check of the dejitter, which only prints, and the re-arming of its own clock.
- Re-entrant calls from outlets, and races between the audio and scheduler threads on the receiver's queue: steps are serialised. A push while replies run waits for the lock.
- A client tick needs a node. A client whose port is set to 0 keeps its poll clock, and one created without a port never starts it; neither is modelled.
- Exceptions from node construction: creation succeeds or returns null and registers nothing.
- Senders and receivers with a duplicate id on a node are reported by the original and attached all the same; the report is not modelled.
- The atoms of the announcements: an endpoint that was added by address may be removed by peer name. Announcements are compared by endpoint.
- Message outputs of the client other than dispatched messages and the connection state.
- Peer messages with an empty payload, which the original asserts against when it writes the atoms.
- Floating point bit patterns: DataCodec treats them as a parameter, and the round trips are about the integer and byte types.
- Casts of out-of-range numbers, which the language leaves undefined, are preconditions.
- The stream-state and stream-time events that aoo.receive~ queues as messages with an over-allocated buffer.
- The number of channels being clamped after a format was parsed, and the numbers being limited to 32 bits.
- aoo.server, DSP, attributes, help files and all setters that only pass a value on.
