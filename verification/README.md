# Verification of vNet

A Dafny model of the parts of vNet that move bytes, decide about packets and hand out
switches, with proofs of what they are for. `dafny verify dfyconfig.toml` checks all of it.

## How it is built

vNet is a stack: bytes, frames, handshake, packet policy. Every component is there twice.

* A **specification**: datatypes and functions that say what each operation does to a
  state. The environment is data that the theorems quantify over: what arrives on a socket and
  where `read` fails (`Kernel.Arrival`), what `write` answers (`Kernel.Reply`), which epoll
  events come, whether they can be re-armed and what a handler sends back. "For all schedules"
  means "for all such lists".
* An **implementation**: for what vNet does by changing fields, a class with those fields whose
  methods have the loops and early returns of the original. Each method is proved to take the
  abstract value (`view` or `View()`) where the specification says.

The theorems are about the specification and so hold of the classes.

| modules | what they cover |
|---|---|
| `Wire`, `Framing`, `Kernel` | header bytes, the reference stream parser, `read` and `write` |
| `FrameReader`, `Connection`, `EventQueue`, `Closings`, `Progress`, `QueueRuns`, `Delivery`, `Overflow`, `OverflowRuns`, `Refusals` | NetQueue: reader state machine, write buffer, event batches, when elements are closed, what is written and answered, all runs, two queues joined by a stream, full buffers, what a refused send leaves behind |
| `NetQueues` | NetQueue on the heap |
| `BlockingReader`, `SocketUtils` | the blocking readers and writers, and handing a socket over to NetQueue |
| `Config`, `ConfigMeaning`, `ConfigLookups`, `ConfigOrder`, `ConfigLoader` | the two-pass loader, what a file means, what the lookups answer, when the order of its lines matters, the loader on the heap |
| `Agents`, `AgentRegistries`, `Routing`, `IPv4` | the three indexes, the routing table, the header parser |
| `PacketPolicy`, `BlackBoxMeaning`, `BlackBoxes`, `SwitchNetwork` | packet decisions, the same in terms of the file and the hooks called, the black box on the heap, several switches |
| `RoundRobin`, `Conductor`, `ConductorMeaning`, `ConductorStates` | the choice of a switch, the conductor's lists, the same in terms of what connections said, the same on the heap |
| `SwitchTokens`, `SwitchStates`, `Handshake` | a switch's tokens, the same on the heap, conductor, switches and agents together |
| `Lists`, `Maps` | small facts about sequences and maps |

## What is assumed

The code relies on these without checking them. Predicates of the model are named; the others are
built into what the model's environment can do.

* A frame fits `net_buffer`: header and payload have at most 66000 bytes (`FrameReader.Fits`).
  `process` reads as many bytes as the header says. `FrameReader.StaysInBufferIff` proves that
  this is exactly what keeps it inside the buffer, and `FrameReader.OversizedFrameOverruns` has a
  frame that leads out of it.
* A peer does not hang up while payload bytes are owed (`FrameReader.Calm`). Where this fails
  `process` never returns: `FrameReader.TerminatesIff` gives the exact condition, and
  `FrameReader.HangUpInPayloadIsStuck` an input.
* A `read` of zero bytes returns 0; that is how a frame without payload becomes complete.
* `onSocketReady` only sends. It does not close or add elements while one is processed.
* `epoll_ctl` succeeds in `send` and in `flush_write_buffer`, which ignore its result. After an
  event it may fail (`EventQueue.Event.rearms`), and then the element is closed.
* EINTR and EAGAIN come finitely often in a row: the lists of arrivals and replies are finite.
  `write_n_bytes`, which retries both, may wait for ever: `SocketUtils.EndlessIff` says exactly when.
* Tokens are fresh, a switch hears of a token only from the conductor, and the conductor closes no
  connection that a list holds under another role (`Handshake.Allowed`). The last is exactly what
  keeps its lists free of deleted records (`Conductor.StaysSoundIff`).
* A conductor connection registers once. `Conductor.Orderly` is weaker, and `Conductor.BookedIff`
  proves that it is exactly what the invariant on the conductor's lists needs. The safety of the
  handshake does not need it.

## Where the code does not do what is written about it

* `include/vnet/netqueue/netqueue.hpp:68-73` promises that a connection is closed, with `onClose`,
  when its write buffer overflows. `send` only marks the element, and a send that the kernel refuses
  leaves no mark (`Overflow.RefusedMarksIff`). A mark that outlives the call lasts until input is
  reported on the element, which closes it (`OverflowRuns.MarkedUntilInput`). The mark is lost exactly
  when an element overflows from its own handler (`Overflow.MarkSurvivesIff`), so that nothing
  closes it (`Overflow.OwnOverflowIsForgotten`); others are still marked when the event ends
  (`OverflowRuns.OverflowedIsMarked`).
* A connection on which a send was refused may stay open with part of the refused frame in its
  stream (`Refusals.RefusedPostLeavesPart`). What is sent before is still read as sent; what is sent
  after is, whatever it is, exactly when that part is empty (`Refusals.RefusalHarmlessIff`).
  `Refusals.HeartbeatNobodySent` has a peer that reads a frame nobody sent.
* `process` uses its element after `onSocketReady` (src/netqueue/netqueue.cpp:307-308, 193), but two
  handlers close and so free it there: for an agent when there is no switch
  (src/conductor/setup.cpp:254), and for an agent whose token is not pending (src/switch/setup.cpp:120).
  `Conductor.NoneClosesOwnIff` and `SwitchTokens.NoneClosesOwnIff` say in exactly which runs that
  does not happen: those in which no agent asks while there is no switch, and those in which only
  tokens that stand are presented. `Conductor.EarlyAgentIsClosed` and `SwitchTokens.StrangerIsClosed`
  are runs in which it does.
* `process` takes an interrupted read for a failure and the connection is closed
  (src/netqueue/netqueue.cpp:250-255); `read_n_bytes` reads on. So the two readers do not always
  get the same frames: `BlockingReader.ReadersAgreeIff` has the exact condition and
  `BlockingReader.InterruptedBeat` an input.
* A `Config::load` that fails leaves part of the file behind. `ConfigOrder.OrderFreeIff` says for which
  files the tables are the same however the lines are ordered: those that load, those whose
  assignments fail and are all of the address 0 or all of one address to one name, and those whose
  rules fail and none of whose rules resolves. `ConfigOrder.FailedLoadDependsOnOrder` has a file that
  is none of these. The lookups are sound in all cases (`Config.LoadIsCoherent`).
* Closing a conductor connection tidies up by the role it registered last; one that is in the other
  list too stays there after its record is deleted (`Conductor.ClosedIsForgottenIff`,
  `Conductor.RegisteringTwiceIsRemembered`).
* A reply is not always delivered to the sender: two live agents on one descriptor are enough
  (`PacketPolicy.AnswerOnSharedFdIsDropped`). `PacketPolicy.ReplySymmetryIff` has the exact condition.
* A switch believes an announced token whichever connection announces it.
  `Handshake.AnnouncementHarmlessIff` says exactly from which announcements no wrong authentication
  can follow, and `Handshake.UnaskedNoticeIsBelieved` shows one from which one does.
* A switch closes a rejected connection without `onClose`. Its list holds connected agents only,
  exactly when no agent let in has since presented a token that is not pending
  (`SwitchTokens.ListedAreConnectedIff`); `SwitchTokens.TurnedOutStaysListed` has a run with one that has.

## Model

| member | source | states |
|---|---|---|
| `Wire.HeaderRoundTrip` | src/protocol/header.cpp:8-22 | The getters give back the two values a header was made from, for every size and type, whatever follows the header |
| `Wire.HeaderIsItsFields` | src/protocol/header.cpp:8-22 | Every six bytes are the header of the fields read from them, so no two headers read alike |
| `Wire.Bytes32RoundTrip` | src/protocol/header.cpp:8-22 | Network order loses nothing of a 32-bit value |
| `Wire.Value32RoundTrip` | src/protocol/header.cpp:8-22 | Four bytes are the network order of the value read from them |
| `Framing.ParseKeepsBytes` | src/netqueue/netqueue.cpp:244-310 | The reference parser loses no byte, and stops only where a frame is unfinished |
| `Framing.ParseInvertsEncode` | src/netqueue/netqueue.cpp:140-152 | Frames written one after the other, with any unfinished frame behind them, parse to those frames and that rest |
| `Framing.ParseResumes` | src/netqueue/netqueue.cpp:247-268 | Parsing may stop at any byte and go on later from what was left over |
| `Framing.PrefixParsesToPrefix` | src/netqueue/netqueue.cpp:244-310 | A prefix of an encoded stream parses to a prefix of its frames, and to all of them only at its end |
| `Kernel.ReadEffect` | src/netqueue/netqueue.cpp:249-260 | What any `read` may do: hand over some of the bytes available, report end of file after a hang-up, or fail, and nothing gets lost |
| `Kernel.Push` | src/netqueue/netqueue.cpp:110-137 | The write loop ends with all taken exactly when it counts all bytes, and never counts more |
| `Kernel.PushOnce` | src/netqueue/netqueue.cpp:59-73 | One `write` either ends the loop, with the right cause, or leaves the same loop with less before it |
| `FrameReader.DrainIsParse` | src/netqueue/netqueue.cpp:244-314 | When `process` returns, it has delivered exactly the frames the parser finds in the held and available bytes; the buffer is the unparsed rest, and the state is SCK_HEADER when that is shorter than a header and SCK_PAYLOAD otherwise, unless reading failed or ended |
| `FrameReader.TurnProgress` | src/netqueue/netqueue.cpp:244-314 | Each turn that does not return uses up input or moves on in the state machine, unless it is stuck |
| `FrameReader.TerminatesIff` | src/netqueue/netqueue.cpp:244-314 | `process` returns exactly when no hang-up comes inside the payload that is next |
| `FrameReader.StuckForever` | src/netqueue/netqueue.cpp:282-287 | After such a hang-up no number of turns makes it return |
| `FrameReader.HangUpInPayloadIsStuck` | src/netqueue/netqueue.cpp:282-287 | One byte announced, then a hang-up: such an input |
| `FrameReader.Returns` | src/netqueue/netqueue.cpp:244-314 | Otherwise some number of turns does |
| `FrameReader.TurnKeepsPromises` | src/netqueue/netqueue.cpp:244-314 | What a peer promises about its stream still holds of what is left of it after any turn |
| `FrameReader.DrainKeepsPromises` | src/netqueue/netqueue.cpp:244-314 | And after any call of `process` |
| `FrameReader.FitsInBuffer` | src/netqueue/netqueue.cpp:272-273 | If every frame of the stream fits, the reader never holds or asks for more than `net_buffer` |
| `FrameReader.StaysInBufferIff` | src/netqueue/netqueue.cpp:269-288 | In no turn of `process` does the frame asked for exceed `net_buffer`, exactly when every frame it can get to, finished or not, fits |
| `FrameReader.FitsStaysWithin` | src/netqueue/netqueue.cpp:269-288 | A stream all of whose frames fit never leads out of the buffer |
| `FrameReader.OversizedFrameOverruns` | src/netqueue/netqueue.cpp:272-273 | A header that announces one byte too many does |
| `FrameReader.FaithfulIsParse` | src/netqueue/netqueue.cpp:244-310 | Between calls the frames delivered and the bytes held are what the parser makes of all bytes ever read |
| `FrameReader.DrainStaysFaithful` | src/netqueue/netqueue.cpp:244-310 | Every call of `process` keeps that so |
| `FrameReader.ProcessAllIsParse` | src/netqueue/netqueue.cpp:244-310 | A stream that arrives in pieces, over any number of calls, yields exactly the frames the parser finds in it and leaves exactly the unfinished rest |
| `FrameReader.FragmentationIndependence` | src/netqueue/netqueue.cpp:244-310 | Two ways to cut the same bytes leave the same reader with the same frames delivered |
| `Connection.SendConserves` | src/netqueue/netqueue.cpp:87-138 | Until a send is refused, what the kernel took followed by what waits is all that was given to send; the buffer stays bounded and well formed |
| `Connection.SendLeavesReader` | src/netqueue/netqueue.cpp:87-138 | A send changes nothing of the read side, except to mark an overflow |
| `Connection.PostConserves` | src/netqueue/netqueue.cpp:140-152 | When it returns true the whole frame has joined the stream, behind all earlier ones; when it returns false the frame does not count as sent and the connection as refused |
| `Connection.PostKeeps` | src/netqueue/netqueue.cpp:140-152 | It keeps the wakeup invariant and takes back nothing the kernel has |
| `Connection.FlushConserves` | src/netqueue/netqueue.cpp:55-85 | Flushing moves bytes from buffer to kernel in order, and changes nothing else |
| `EventQueue.TurnAtReads` | src/netqueue/netqueue.cpp:289-310 | Whatever the handler sends, to whomever, the element is read as if it sent nothing, and others are only sent to |
| `EventQueue.DrainAtReads` | src/netqueue/netqueue.cpp:244-314 | The same for a whole call of `process` |
| `EventQueue.HandleKeeps` | src/netqueue/netqueue.cpp:188-240 | After an event its element is gone or armed for what it needs; no other element is closed or disarmed |
| `EventQueue.NoLostWakeup` | src/netqueue/netqueue.cpp:174-242 | After every batch each live element is armed for input, and for output exactly when bytes wait, in spite of EPOLLONESHOT and of sends from other elements' handlers |
| `EventQueue.HandleAllKeeps` | src/netqueue/netqueue.cpp:183-241 | In a batch each element that had an event ends up closed or armed, also when an earlier event closed it |
| `EventQueue.HandleContinues` | src/netqueue/netqueue.cpp:188-240 | An event takes back nothing a live connection has sent, and changes nothing of what it will receive |
| `EventQueue.HandleAllContinues` | src/netqueue/netqueue.cpp:183-241 | Nor does a batch |
| `Closings.HandleClosesIff` | src/netqueue/netqueue.cpp:188-240 | An event closes its element exactly when it reports a hang-up or an error, the flush meets a refusal, reading ends at a hang-up or fails other than for want of input, or it cannot be armed again; `onClose` is told which of these |
| `Closings.InputReads` | src/netqueue/netqueue.cpp:190-191 | An input event reads all there is, as the parser finds it, and no other event reads |
| `Closings.BatchReportsOnce` | src/netqueue/netqueue.cpp:181-240 | Over a batch `onClose` is called once for each element that goes and for no other |
| `Progress.PushTakes` | src/netqueue/netqueue.cpp:59-73 | A write loop writes all that the kernel is willing to take before it first refuses |
| `Progress.FlushWrites` | src/netqueue/netqueue.cpp:55-85 | A flush writes that much of the buffer, and empties it and stops waiting for output exactly when that is all |
| `Progress.SendWrites` | src/netqueue/netqueue.cpp:94-136 | A send writes that much at once, and nothing when older bytes wait |
| `Progress.HandleWrites` | src/netqueue/netqueue.cpp:201-206 | An event that reports output flushes what waits after the handlers, and no other event does |
| `Progress.DrainPosts` | src/netqueue/netqueue.cpp:289-310 | `process` calls the handler once for each frame delivered, and all it sends is sent, in order, unless a send is refused |
| `QueueRuns.ApplyKeeps` | src/netqueue/netqueue.cpp:24-242 | Adding, sending, closing, waiting and arrivals each keep every connection healthy and awake |
| `QueueRuns.RunKeeps` | src/netqueue/netqueue.cpp:24-242 | So does any run of them |
| `QueueRuns.CallsDo` | src/netqueue/netqueue.cpp:24-157 | What adding, sending and closing do to their element, and that they touch no other |
| `QueueRuns.EveryRun` | src/netqueue/netqueue.cpp:24-310 | At every live connection of every run: at most 65536 bytes wait, offset 0 when none do and below the size otherwise, kernel plus buffer are the frames sent, delivered plus held are the bytes parsed, state and epoll interest fit |
| `Delivery.ApplyContinues` | src/netqueue/netqueue.cpp:24-242 | No call on a queue changes the stream of a connection it is not about |
| `Delivery.NextLinks` | src/netqueue/netqueue.cpp:24-310 | Whatever either queue or the network does, the receiver's stream is what has crossed of the sender's |
| `Delivery.PlayLinks` | src/netqueue/netqueue.cpp:24-310 | Over any schedule |
| `Delivery.EndToEnd` | src/netqueue/netqueue.cpp:55-310 | For every schedule of sends, short writes, EAGAINs, flushes, cuts and failing reads: the frames delivered are a prefix of the frames sent, and all of them once the buffer is empty and all bytes are read |
| `Overflow.RefusedMarksIff` | src/netqueue/netqueue.cpp:94-136 | A refused send marks its element exactly when it overflows the buffer, directly or after a partial write, and not when the kernel refuses |
| `Overflow.MarkedClosesIff` | src/netqueue/netqueue.cpp:190-240 | When exactly an element marked as overflowed is closed by an event |
| `Overflow.MarkSurvivesIff` | src/netqueue/netqueue.cpp:305-308 | The mark of an overflow during a handler survives exactly on elements other than the one handled |
| `OverflowRuns.InputClosesMarked` | src/netqueue/netqueue.cpp:183-241 | A batch that reports input on a marked element closes it, wherever in the batch |
| `OverflowRuns.OverflowedIsMarked` | src/netqueue/netqueue.cpp:188-310 | An element that another element's handler makes overflow, in whichever turn of `process`, is marked when the event ends |
| `OverflowRuns.MarkedUntilInput` | src/netqueue/netqueue.cpp:24-242 | In every run a marked element stays marked while it is there, which is at most until input is reported on it |
| `Overflow.OwnOverflowIsForgotten` | src/netqueue/netqueue.cpp:98-101 | An input for which the promised close never happens |
| `Refusals.RefusedPostLeavesPart` | src/netqueue/netqueue.cpp:87-152 | A refused frame leaves a part of it behind all earlier ones, and never all of it |
| `Refusals.PostAdds` | src/netqueue/netqueue.cpp:87-152 | A frame sent after that goes whole behind that part |
| `Refusals.PartIsHarmlessIff` | src/netqueue/netqueue.cpp:247-310 | Frames behind a part of a frame are parsed as sent, whatever they are, exactly when the part is empty |
| `Refusals.RefusalHarmlessIff` | src/netqueue/netqueue.cpp:87-152 | After a refusal the peer reads just the frames sent before, and all later ones as sent exactly when the refusal left no byte |
| `Refusals.HeartbeatNobodySent` | src/netqueue/netqueue.cpp:132-151 | A send that fails after three bytes, and a next one that makes the peer see a frame nobody sent |
| `NetQueues.Socket.WriteLoop` | src/netqueue/netqueue.cpp:59-73 | The loop around `write` does what `Push` says, and the kernel has got just the bytes counted |
| `NetQueues.NetworkElement.FlushWriteBuffer` | src/netqueue/netqueue.cpp:55-85 | Buffer, offset, kernel and interest become what the specification of flushing says |
| `NetQueues.NetworkElement.SendBytes` | src/netqueue/netqueue.cpp:87-138 | The same for sending bytes, result included |
| `NetQueues.NetworkElement.Post` | src/netqueue/netqueue.cpp:140-152 | The same for sending a frame |
| `NetQueues.NetworkElement.ReadHeader` | src/netqueue/netqueue.cpp:247-268 | One turn in SCK_HEADER, reading into the array in place |
| `NetQueues.NetworkElement.ReadPayload` | src/netqueue/netqueue.cpp:269-288 | One turn in SCK_PAYLOAD, never past the end of the array |
| `NetQueues.NetQueue.Send` | src/netqueue/netqueue.cpp:87-152 | A send by descriptor changes that element only, and nothing when there is none |
| `NetQueues.NetQueue.HandleFrame` | src/netqueue/netqueue.cpp:289-310 | The handler gets the frame, then the state starts over whatever the handler did |
| `NetQueues.NetQueue.Process` | src/netqueue/netqueue.cpp:244-323 | The loop ends, and the queue is what the specification of `process` says |
| `NetQueues.NetQueue.Judge` | src/netqueue/netqueue.cpp:188-227 | Whether to close and the reason reported: the last cause found |
| `NetQueues.NetQueue.Settle` | src/netqueue/netqueue.cpp:216-240 | Re-arming with the right interest, or `onClose` and close |
| `NetQueues.NetQueue.HandleEvent` | src/netqueue/netqueue.cpp:188-240 | One event as specified, and whether the element was closed |
| `NetQueues.NetQueue.Put` | src/netqueue/netqueue.cpp:24-53 | A new element, armed for input, shares nothing with others; a descriptor already there, or not admitted, changes nothing |
| `NetQueues.NetQueue.Close` | include/vnet/netqueue/netqueue.hpp:134-140 | The element goes, the others stay |
| `NetQueues.NetQueue.WaitAndProcess` | src/netqueue/netqueue.cpp:174-242 | The loop over a batch, skipping elements closed in it, is the specified sequence of events |
| `BlockingReader.ReadNIff` | src/common/socket_utils.cpp:74-87 | A blocking read of n bytes succeeds exactly when n bytes come before a failure other than EINTR or end of file, and takes those and no more |
| `BlockingReader.ReadRawIff` | src/common/socket_utils.cpp:154-166 | It returns the first frame exactly when that is complete, and takes that frame's bytes only |
| `BlockingReader.ReadRawsIsParse` | src/common/socket_utils.cpp:154-166 | Repeated until it fails, it reads the frames of the reference parser |
| `BlockingReader.ReadersAgreeIff` | src/common/socket_utils.cpp:74-166 | Those are the frames `process` delivers from the same arrivals exactly when no interrupted read keeps `process` from finishing a frame |
| `BlockingReader.InterruptedBeat` | src/netqueue/netqueue.cpp:250-255 | A heartbeat interrupted half way, which one reader gets and the other does not |
| `BlockingReader.ReadTypedIff` | src/common/socket_utils.cpp:119-152 | It succeeds exactly when the first frame that is no heartbeat is complete and of the expected type, and takes the heartbeats and that frame and no byte more |
| `BlockingReader.HandoverStream` | src/agent/setup.cpp:201-236 | After a successful handshake read the socket holds every later frame, whole and in order |
| `BlockingReader.HandoverDelivers` | src/agent/setup.cpp:201-236 | Put into NetQueue then, it delivers exactly the frames behind the one read |
| `BlockingReader.HandoverKeepsPromises` | src/agent/setup.cpp:201-236 | What NetQueue needs of a peer is still true of the rest of its stream |
| `SocketUtils.ReadNBytes` | src/common/socket_utils.cpp:74-87 | The loop fills the buffer as specified, and fails where it should |
| `SocketUtils.ReadRawPacket` | src/common/socket_utils.cpp:154-166 | Type, body and what is left on the socket are those of the specification |
| `SocketUtils.ReadProtobufPacket` | src/common/socket_utils.cpp:119-152 | The loop that skips heartbeats reads what the specification reads |
| `SocketUtils.EndlessIff` | src/common/socket_utils.cpp:56-72 | A blocking write waits for ever exactly when the kernel takes too few bytes and never refuses for good |
| `SocketUtils.WrittenIff` | src/common/socket_utils.cpp:56-72 | It is complete exactly when the kernel takes enough before it refuses for good, and else has written just what it took |
| `SocketUtils.WriteNBytes` | src/common/socket_utils.cpp:56-72 | Otherwise it is true exactly when all bytes were written, in order, and else a proper prefix was, up to where the kernel refused |
| `SocketUtils.SendProtobufPacket` | src/common/socket_utils.cpp:101-117 | True exactly when one whole frame was written, otherwise part of it |
| `SocketUtils.SentIsRead` | src/common/socket_utils.cpp:101-166 | What it writes both blocking readers read back, however cut and whatever follows |
| `Config.LoadIsCoherent` | src/blackbox/config.cpp:31-144 | Whatever the lines, and also when loading fails: names and addresses are mutually inverse, the agent ACL is symmetric and closed over configured addresses, and neither 0 nor "" is stored |
| `Config.RuleCoherent` | src/blackbox/config.cpp:99-137 | No single rule, good or bad, breaks that |
| `Config.AssignAllCoherent` | src/blackbox/config.cpp:72-96 | Nor does any run of assignments, failed ones included |
| `Config.SentinelsAreUnambiguous` | src/blackbox/config.cpp:148-156 | So 0 and "" mean "not configured" and nothing else, and the two lookups are inverse |
| `Config.AnyInternetAccessIff` | src/blackbox/config.cpp:170-179 | An agent has internet access exactly when there is an address it can reach |
| `ConfigMeaning.AssignAllIff` | src/blackbox/config.cpp:72-96 | The first pass succeeds exactly when addresses are not 0 and no name or address comes twice or was there before |
| `ConfigMeaning.LoadSucceedsIff` | src/blackbox/config.cpp:71-144 | Loading succeeds exactly when the bag of lines has non-zero distinct addresses, distinct names, and rules that resolve |
| `ConfigMeaning.LoadMeaning` | src/blackbox/config.cpp:71-144 | The maps of a successful load are what the bag of lines means, without any order |
| `ConfigMeaning.MeaningIsUnique` | src/blackbox/config.cpp:71-144 | A bag of lines means one set of tables |
| `ConfigMeaning.LoadIgnoresOrder` | src/blackbox/config.cpp:71-144 | So outcome and tables are the same for every permutation of the lines |
| `ConfigLookups.LoadSucceedsByLines` | src/blackbox/config.cpp:71-144 | A file loads exactly when its assignments are of non-zero distinct addresses and distinct names, and each other line is a host with another host or with an internet address that `inet_pton` takes |
| `ConfigLookups.NamesMeanLines` | src/blackbox/config.cpp:148-156 | The two name lookups answer what the assignments of the file say |
| `ConfigLookups.TalkMeansLine` | src/blackbox/config.cpp:112-137 | Two addresses may communicate exactly when a line names their two hosts, in one order or the other |
| `ConfigLookups.ReachMeansLine` | src/blackbox/config.cpp:112-122 | An agent may reach an internet address exactly when a line of its host ends in that address |
| `ConfigOrder.OrderFreeIff` | src/blackbox/config.cpp:71-144 | The tables are the same for every order of the lines exactly when the file loads, or its assignments fail and are all of the address 0 or all of one address to one name, or its rules fail and none of them resolves |
| `ConfigOrder.RulesFailedIff` | src/blackbox/config.cpp:99-137 | When only rules fail, the ACLs left are the same for every order exactly when no rule resolves |
| `ConfigOrder.FailedAndOrderFree` | src/blackbox/config.cpp:72-96 | When assignments fail and some address is not 0, order makes a difference unless all of them say the same |
| `ConfigOrder.FailedLoadDependsOnOrder` | src/blackbox/config.cpp:83-87 | Two failing files with the same lines leave different lookups behind |
| `ConfigLoader.ConfigFile.Load` | src/blackbox/config.cpp:24-144 | A file that cannot be opened changes nothing, a malformed one clears, any other ends as specified; lookups stay sound in all cases |
| `ConfigLoader.ConfigFile.AssignLoop` | src/blackbox/config.cpp:72-96 | The first loop fills the two maps as specified, and stops where it should |
| `ConfigLoader.ConfigFile.RuleLoop` | src/blackbox/config.cpp:99-137 | The second loop fills the two ACLs as specified, and stops where it should |
| `Agents.ApplyCoherent` | src/blackbox/agent_registry.cpp:5-68 | Each call keeps every index entry live and under its own key |
| `Agents.LiveAfter` | src/blackbox/agent_registry.cpp:5-39 | Who is registered after a call: the one registered, and all who were, except of its name or found by its key |
| `Agents.EveryRunCoherent` | src/blackbox/agent_registry.cpp:5-68 | After any calls at all no index leads to a deleted entry or one under a wrong key |
| `Agents.RegisterFdExactIff` | src/blackbox/agent_registry.cpp:22-24 | Registering keeps every live entry findable by descriptor exactly when no other live name has that descriptor |
| `Agents.RegisterIpExactIff` | src/blackbox/agent_registry.cpp:22-24 | The same for addresses |
| `Agents.IndexesAgree` | src/blackbox/agent_registry.cpp:5-68 | Without such reuse the three indexes hold the same entries throughout |
| `AgentRegistries.AgentRegistry.ViewIsCoherent` | src/blackbox/agent_registry.cpp:5-68 | With live pointers under their keys, the registry on the heap is a coherent one |
| `AgentRegistries.AgentRegistry.RegisterAgent` | src/blackbox/agent_registry.cpp:5-27 | The old entry of the name is deleted, the new one is in all indexes, and exactly these two change what is live |
| `AgentRegistries.AgentRegistry.UnregisterByFd` | src/blackbox/agent_registry.cpp:29-33 | The entry of the descriptor, if there is one, is deleted and no pointer to it is left |
| `AgentRegistries.AgentRegistry.UnregisterByName` | src/blackbox/agent_registry.cpp:35-39 | The same by name |
| `AgentRegistries.AgentRegistry.RemoveEntry` | src/blackbox/agent_registry.cpp:60-68 | Only a live entry is deleted, and afterwards nothing leads to it |
| `AgentRegistries.AgentRegistry.Destroy` | src/blackbox/agent_registry.cpp:70-79 | Every live entry is deleted, none twice |
| `Routing.LookupIsLastWord` | src/blackbox/routing_table.cpp:7-27 | After any log, a lookup is the descriptor of the last update of the destination unless that was negative or its switch was lost later; stored descriptors are never negative |
| `Routing.NoRouteToLostSwitch` | src/blackbox/blackbox.cpp:43-53 | After a switch is lost no lookup leads to it until an update names it again |
| `Routing.RoutingTable.RemoveRoutesForSwitch` | src/blackbox/routing_table.cpp:15-22 | The erasing loop removes the routes through the switch and no others |
| `Routing.RoutingTable.SetRoute` | src/blackbox/routing_table.cpp:7-9 | One destination is set, the others keep their routes |
| `Routing.RoutingTable.RemoveRoute` | src/blackbox/routing_table.cpp:11-13 | One destination is removed, the others keep their routes |
| `IPv4.Parse` | src/blackbox/ipv4.cpp:7-53 | Succeeds exactly on well-formed packets (version, header length, total length, room for ports), with the fields at the offsets of section 3.1 of RFC 791 |
| `IPv4.PacketRoundTrip` | src/blackbox/ipv4.cpp:12-50 | Whatever header a packet is built with, and whatever its other bytes, is the header read from it |
| `IPv4.AcceptedIff` | src/blackbox/ipv4.cpp:9-45 | Accepted are exactly the packets that consist of a version 4 header, options, ports for TCP and UDP, and payload, of the lengths the header says |
| `PacketPolicy.HookKeeps` | src/blackbox/blackbox.cpp:14-53 | Each hook keeps registered agents on their configured addresses, and the address index exact |
| `PacketPolicy.EveryRunSound` | src/blackbox/blackbox.cpp:14-53 | So do all runs, because a coherent configuration is injective |
| `PacketPolicy.LoadedBoxIsSound` | src/blackbox/blackbox.cpp:7-53 | A box made from any file, loaded or not, starts sound, with exact indexes, and stays sound under any hooks |
| `PacketPolicy.HookFdExactIff` | src/blackbox/blackbox.cpp:14-32 | Authenticating keeps the descriptor index exact exactly when no other live agent has the descriptor |
| `PacketPolicy.EveryRunFdExact` | src/blackbox/blackbox.cpp:14-41 | Without such reuse it is exact in all runs |
| `PacketPolicy.AgentPacketIff` | src/blackbox/blackbox.cpp:67-204 | An agent's packet is not dropped exactly when it is well formed, from a registered descriptor, with that agent's address, and allowed by the ACL for its destination |
| `PacketPolicy.ReplySymmetryIff` | src/blackbox/blackbox.cpp:93-204 | Who gets a packet locally can answer its sender exactly when the descriptor index leads to the receiver's own entry |
| `PacketPolicy.AnswerOnSharedFdIsDropped` | src/blackbox/blackbox.cpp:93-111 | Three agents, two of them on one descriptor, whose answers are dropped as forged |
| `PacketPolicy.ReplySymmetry` | src/blackbox/blackbox.cpp:93-204 | With an exact index: if a→b from fa is delivered to fb, then b→a from fb is delivered to fa |
| `PacketPolicy.ReachableBoxes` | src/blackbox/blackbox.cpp:7-204 | From any file, by any hooks that reuse no descriptor of a live agent: the three indexes agree and every packet delivered locally can be answered |
| `PacketPolicy.InternetReply` | src/blackbox/blackbox.cpp:141-204 | If a→i went to the internet, i→a from the TUN is delivered to the descriptor that sent |
| `BlackBoxMeaning.LiveIffConnected` | src/blackbox/blackbox.cpp:14-41 | Registered are exactly the configured agents whose last authentication was not followed by a disconnect of its descriptor |
| `BlackBoxMeaning.RegisteredAfter` | src/blackbox/blackbox.cpp:14-53 | What one hook changes about who is registered, descriptors reused or not |
| `BlackBoxMeaning.RoutesFollowLog` | src/blackbox/blackbox.cpp:43-53 | The routing table of a box is that of the log of its route hooks |
| `BlackBoxMeaning.NoForwardToLostSwitch` | src/blackbox/blackbox.cpp:51-53 | No packet is forwarded to a switch that was lost and not named since |
| `BlackBoxMeaning.AgentIsChecked` | src/blackbox/blackbox.cpp:93-111 | From a descriptor nobody is connected on a packet is from an unknown source, with another's address it is a spoof, and only otherwise is it routed |
| `BlackBoxMeaning.ToHost` | src/blackbox/blackbox.cpp:169-191 | To a host of the file: refused unless a line lets the two talk, delivered if it is connected here, else forwarded as the last word on it says, and else a route to it is asked for |
| `BlackBoxMeaning.ToInternet` | src/blackbox/blackbox.cpp:193-204 | To any other address: unreachable without a TUN, refused unless a line allows it, else sent to the TUN |
| `BlackBoxMeaning.FromSwitchToHost` | src/blackbox/blackbox.cpp:122-131 | From a switch: delivered exactly to the connected host of the destination address |
| `BlackBoxMeaning.FromInternetToHost` | src/blackbox/blackbox.cpp:141-156 | From the TUN: the same, but only if a line lets that host reach the source address; else refused or unreachable |
| `BlackBoxMeaning.MalformedIsDropped` | src/blackbox/blackbox.cpp:67-72 | Bytes that are no packet, and only those, are dropped as malformed |
| `BlackBoxMeaning.Disconnected` | src/blackbox/blackbox.cpp:34-41 | After a disconnect nothing is found by the descriptor, the agent that was is gone and no other, and packets on it are from nobody known |
| `BlackBoxMeaning.NothingForTheDisconnected` | src/blackbox/blackbox.cpp:34-41 | Nothing is delivered on a descriptor that was disconnected until an agent is authenticated on it |
| `BlackBoxes.BlackBox.OnAgentAuthenticated` | src/blackbox/blackbox.cpp:14-32 | True exactly for configured names, which are then registered under their address |
| `BlackBoxes.BlackBox.OnAgentDisconnected` | src/blackbox/blackbox.cpp:34-41 | The registry forgets the descriptor's agent as the hook of the specification does |
| `BlackBoxes.BlackBox.OnRouteUpdate` | src/blackbox/blackbox.cpp:43-49 | A negative descriptor removes the route, any other sets it, as in the log the routing theorems are about |
| `BlackBoxes.BlackBox.OnSwitchDisconnected` | src/blackbox/blackbox.cpp:51-53 | All routes through the switch go, nothing else changes |
| `BlackBoxes.BlackBox.Process` | src/blackbox/blackbox.cpp:67-84 | The decision on any bytes is that of the policy, and nothing changes |
| `BlackBoxes.BlackBox.ProcessFromAgent` | src/blackbox/blackbox.cpp:93-111 | With pointer lookups in the registry, the policy's decision for agents |
| `BlackBoxes.BlackBox.ProcessFromTun` | src/blackbox/blackbox.cpp:141-156 | The policy's decision for the TUN |
| `BlackBoxes.BlackBox.RouteToDestination` | src/blackbox/blackbox.cpp:167-204 | The policy's decision for a destination, in the same order of checks |
| `SwitchNetwork.AtMostTwoVisits` | src/blackbox/blackbox.cpp:93-131 | No packet visits more than two switches, whatever the routing tables hold |
| `SwitchNetwork.DeliveriesAreAuthorised` | src/blackbox/blackbox.cpp:93-191 | A delivery anywhere was allowed by the ACL at the origin, and goes to the agent configured for the destination address |
| `SwitchNetwork.DeliveriesFollowLines` | src/blackbox/blackbox.cpp:93-191 | In terms of the file all switches share: a line lets the two talk, and the receiver is the host of the destination address |
| `SwitchNetwork.RouteDelivers` | src/blackbox/blackbox.cpp:122-187 | A route that points at the switch where the destination is registered leads to delivery on that agent's descriptor, and one that points elsewhere to a drop |
| `SwitchNetwork.RepliesCrossBack` | src/blackbox/blackbox.cpp:93-191 | If both switches have routes, the answer reaches the sender's descriptor |
| `RoundRobin.PickIsFirstEligible` | src/conductor/setup.cpp:94-120 | A pick is the first reachable switch at or after the cursor, counted round the list (any switch when none is reachable), always in range, and the cursor goes just behind it |
| `RoundRobin.SearchMissesNothing` | src/conductor/setup.cpp:102-115 | The loop falls through exactly when no switch is reachable |
| `RoundRobin.PassesAreEven` | src/conductor/setup.cpp:102-119 | A cursor going round passes any two positions equally often, give or take one |
| `RoundRobin.PicksArePasses` | src/conductor/setup.cpp:94-120 | Any number of picks are the positions such a cursor passes, unreachable ones left out |
| `RoundRobin.PicksAreFair` | src/conductor/setup.cpp:94-120 | In any window two reachable switches get equally many agents, give or take one, and unreachable ones none; with none reachable that holds for all |
| `Conductor.BookedIff` | src/conductor/setup.cpp:216-334 | An event keeps the lists right (open connections of the right role, once each, every pending token naming a registered switch) exactly when it is orderly |
| `Conductor.FirstTimeIsOrderly` | src/conductor/setup.cpp:216-312 | A connection that registers for the first time is orderly |
| `Conductor.EveryRunBooked` | src/conductor/setup.cpp:216-334 | In every reachable state each pending token names a registered switch, and no list holds a deleted record |
| `Conductor.ForgetKeeps` | src/conductor/setup.cpp:122-138 | After a close no list holds the connection, no token of that switch is pending, and the lists stay right |
| `Conductor.ClosedIsForgottenIff` | src/conductor/setup.cpp:316-334 | In any state at all, closing leaves no pointer behind exactly when the role fits the lists the connection is in |
| `Conductor.RegisteringTwiceIsRemembered` | src/conductor/setup.cpp:330-333 | A run after which a list holds a deleted record |
| `Conductor.StaysSoundIff` | src/conductor/setup.cpp:216-334 | Whatever registers, in whatever order, only the close of a connection that a list holds under another role leaves a pointer to a deleted record |
| `Conductor.ClosesOwnIff` | src/conductor/setup.cpp:250-256 | A handler closes the connection it serves exactly when an agent asks and there is no switch |
| `Conductor.NoneClosesOwnIff` | src/conductor/setup.cpp:216-312 | In any run no connection is closed while it is served exactly when no agent asks while there is no switch |
| `Conductor.EarlyAgentIsClosed` | src/conductor/setup.cpp:250-256 | A run in which one is |
| `Conductor.ChoicesArePicks` | src/conductor/setup.cpp:241-294 | While switches stay, the agents of one network are given the positions that consecutive picks give, whatever happens between them |
| `Conductor.SharesAreFair` | src/conductor/setup.cpp:241-294 | So no switch within reach gets more than one agent more than another, whether or not the messages get through and whoever connects, returns or leaves in between |
| `Conductor.AskKeepsReach` | src/conductor/setup.cpp:250-284 | The switch notified is the one chosen, and asking changes nothing of which switches can be reached |
| `ConductorMeaning.SwitchesAreRegistered` | src/conductor/setup.cpp:216-239 | In every run the switches listed are those that registered and were not closed since, under the names and networks they gave |
| `ConductorMeaning.ReachMeansRegistered` | src/conductor/setup.cpp:102-114 | A switch is within reach of a network exactly when it registered for that network or for `::internet` |
| `ConductorMeaning.RecordIsLastGiven` | src/conductor/setup.cpp:216-312 | A record holds the role, name and network its connection gave last, and nothing before it gave any |
| `ConductorMeaning.AgentsHaveEntered` | src/conductor/setup.cpp:241-312 | The agents listed are those that came back or were given a switch, and were not closed since |
| `ConductorMeaning.ToldAgentIsBooked` | src/conductor/setup.cpp:250-293 | When both messages get through one token is pending, for the switch chosen, this agent and this token, and the notice names the same; otherwise none is and nothing is sent |
| `ConductorMeaning.TokensWereMade` | src/conductor/setup.cpp:122-133 | In every run a token is pending exactly when it was made so and no switch of its name was closed since |
| `ConductorStates.ConductorState.PickSwitch` | src/conductor/setup.cpp:94-120 | The loop over `switches` returns the record of the switch the specification picks, and moves `rr_index` there |
| `ConductorStates.ConductorState.RemoveSwitch` | src/conductor/setup.cpp:122-133 | The pointer is in the list no more, its tokens go, the order of the rest stays |
| `ConductorStates.ConductorState.RemoveAgent` | src/conductor/setup.cpp:134-138 | The pointer is in the list no more, the order of the rest stays |
| `ConductorStates.ConductorState.OnAccept` | src/conductor/setup.cpp:406-421 | A new record without role, for a connection not known before |
| `ConductorStates.ConductorState.OnSwitchMip` | src/conductor/setup.cpp:216-239 | Record and list as specified, no pointer dangles |
| `ConductorStates.ConductorState.OnAgentMip` | src/conductor/setup.cpp:241-294 | With both early returns as specified; the token goes out for the switch returned and for this agent, and for none when there is no switch |
| `ConductorStates.ConductorState.OnAgentMrp` | src/conductor/setup.cpp:296-312 | Record and list as specified, no pointer dangles |
| `ConductorStates.ConductorState.OnClose` | src/conductor/setup.cpp:316-334 | The record is deleted and no list leads to it |
| `SwitchTokens.PendingIffStanding` | src/switch/setup.cpp:68-127 | After any log the tokens waited for are exactly those whose last announcement was neither used nor found more than 60 seconds old |
| `SwitchTokens.AcceptedIffStanding` | src/switch/setup.cpp:111-128 | A token is accepted exactly when an announcement of it stands, and under the name announced |
| `SwitchTokens.ApplyKeepsTidy` | src/switch/setup.cpp:96-159 | Each event keeps lists free of deleted records, and `onClose` leaves the connection in none |
| `SwitchTokens.EveryRunTidy` | src/switch/setup.cpp:96-159 | So it is in every run |
| `SwitchTokens.ListedIffLetIn` | src/switch/setup.cpp:111-159 | After any log the agents listed are those let in and not closed through `onClose` since |
| `SwitchTokens.LinkedUntilLost` | src/switch/setup.cpp:140-159 | The switch has its link to the conductor exactly until that connection is closed |
| `SwitchTokens.ListedAreConnectedIff` | src/switch/setup.cpp:111-159 | After any log all agents listed are connected exactly when none of them has presented a token that was not pending |
| `SwitchTokens.TurnedOutStaysListed` | src/switch/setup.cpp:117-122 | A run after which one listed is not |
| `SwitchTokens.NoneClosesOwnIff` | src/switch/setup.cpp:96-136 | In any log no connection is closed while it is served exactly when only tokens whose announcement stands are presented |
| `SwitchTokens.StrangerIsClosed` | src/switch/setup.cpp:117-122 | A log in which one is |
| `SwitchStates.SwitchState.ExpireTokens` | src/switch/setup.cpp:68-76 | Erasing while iterating, in any order, leaves exactly the tokens at most 60 seconds old |
| `SwitchStates.SwitchState.OnAgentConnectionToken` | src/switch/setup.cpp:96-105 | The token waits under this name from now on, whatever was there |
| `SwitchStates.SwitchState.OnAuthConnectToSwitch` | src/switch/setup.cpp:111-136 | Accepts exactly what the specification accepts, uses the token up, and lists the agent under the name announced |
| `SwitchStates.SwitchState.OnClose` | src/switch/setup.cpp:140-159 | Neither the list nor the link to the conductor leads to the deleted record |
| `Handshake.NextKeeps` | src/conductor/setup.cpp:241-294 | Every step of conductor, switches, network and agents keeps each token in one place only, where it was issued for |
| `Handshake.EveryRunSecure` | src/conductor/setup.cpp:241-294 | Over all interleavings, with notices delayed, reordered or lost, any token presented by anyone, and connections that register as they like and as often as they like |
| `Handshake.EveryAuthIsIssuedOnce` | src/switch/setup.cpp:111-128 | Whoever is let in under n at s used a token issued for exactly n and s, no two used the same, and a used token is never waited for or on its way again |
| `Handshake.IssuedWasAskedFor` | src/conductor/setup.cpp:241-284 | And an agent of that name had asked for it while that switch was listed, which in an orderly run means registered as a switch |
| `Handshake.ToldAgentIsLetIn` | src/switch/setup.cpp:96-136 | An agent that is told of its switch, whose notice arrives first, is let in there under its name, and its token is used up |
| `Handshake.AnnouncementHarmlessIff` | src/switch/setup.cpp:96-128 | After an announcement from anywhere, all authentications of all continuations are right exactly when the token was issued for that agent and switch and is neither on its way nor used |
| `Handshake.UnaskedNoticeIsBelieved` | src/switch/setup.cpp:96-128 | An announcement after which an agent is let in for whom nothing was issued |

## Left out

* TUN elements in NetQueue (`put_tun`, TUN_RECEIVE and the other TUN states) and TUN devices: a second, simpler state machine beside the one for sockets.
* What a read past the end of `net_buffer` would do: only when it would happen is proved (`FrameReader.StaysInBufferIff`).
* Handlers that close the element being processed, as two handlers do with `queue->close`: in the conductor and switch models that is a step of its own.
* Handlers that send from `onClose`.
* Sockets, `connect_to`, `accept4`, `getaddrinfo`, signals, environment variables, logging and the `main` loops: plumbing without decisions.
* Protobuf: frames carry bodies as bytes, and messages are their fields. Serialising does not fail.
* `inet_pton` is an arbitrary partial function from strings to addresses; reading and tokenising the configuration file is not modelled beyond "cannot be opened" and "a line without two tokens".
* The state dump, heartbeat timing, mutexes and failing allocations. `send_heartbeat` is the sending of a frame of type 0 without body.
* Connection addresses, ports and authentication keys at the conductor, which are stored and copied into replies.
* The conductor's direct `send_protobuf_packet` writes on descriptors that NetQueue owns (src/conductor/setup.cpp:271, 282): they bypass the write buffer, so conservation is about bytes sent through NetQueue.
* `remove_pending_token`, which nothing calls: the conductor's pending list is not claimed to shrink when an agent authenticates.
* That every handshake ends well: the agent hears of its token before the switch does, so an early agent may be turned away. `Handshake.ToldAgentIsLetIn` is about the order in which it does.
* The width of `rr_index`: it is unbounded here, and grows beyond the list only while no switch is reachable.
* A null packet pointer in `ipv4_parse`; packets are sequences of bytes.
* NetQueues.Socket.WriteLoop: the loop that `send` and `flush_write_buffer` each contain is one method, whose caller then acts on how it ended.
* SocketUtils.WriteNBytes: is about writes that end; the others are those of `SocketUtils.EndlessIff`.
* SocketUtils.SendProtobufPacket: the same, for both of its writes.
* BlockingReader.ReadNIff: where nothing more arrives and nobody hangs up the model fails, as on EAGAIN; a blocking `read` would wait.
* NetQueues.NetworkElement.ReadPayload: is not about frames larger than `net_buffer`, where the original writes past the array.
* NetQueues.NetQueue.Process: is about calls that return and stay inside the buffer, which `FrameReader.TerminatesIff` and `FrameReader.StaysInBufferIff` characterise; the others have no result to state.
* NetQueues.NetQueue.HandleEvent: the same.
* NetQueues.NetQueue.WaitAndProcess: the same, for all connections and their whole streams.
* ConductorStates.ConductorState.OnClose: is not about connections listed under a role they no longer have, where the original leaves a dangling pointer; `Conductor.ClosedIsForgottenIff` covers them.
* Conductor.SharesAreFair: is about agents of one network and a list of switches that stays; agents of other networks move the same cursor.
* Handshake.EveryAuthIsIssuedOnce: supposes fresh tokens, notices from the conductor only, and a conductor whose lists hold no deleted record, none of which the code checks.
* Which of two connections on a reused descriptor number an epoll event belongs to; elements are known by descriptor.
* The teardown of a whole queue, the agent program, `src/main.cpp`, `docker/` and `doc/`.
