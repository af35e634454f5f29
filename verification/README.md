# tapip, verified

A Dafny model of the protocol core of tapip, a user-mode TCP/IP stack, with proofs of what that core
guarantees over whole runs. Code that updates state step by step is modelled as classes and loops
(`CBuf`, `TcpSock`, `Block`, `Pipe`, `FragTable`, `Table`, `RouteTable`, `BindTable`, `SockTable`),
each proved equal to a function on values; the theorems are proved about those functions and about
runs of them. `dafny verify dfyconfig.toml` checks everything.

| part | files | main results |
|---|---|---|
| TCP receive stream | `CircularBuffer`, `TcpReceive`, `TcpReceiveProofs`, `TcpPush`, `TcpReceiver` | `ReceiveStream`, `TextStepIff`, `WindowRun`, `ReadBlocksIff` |
| TCP between two ends | `TcpStream`, `TcpEnds` | `SentIsReceived`, `AckedIsDelivered`, `AcksAreHonestIff` |
| TCP control block | `TcpControl`, `TcpBlock`, `Handshake`, `SendSide`, `TcpAcks`, `TcpResets`, `TcpRuns`, `TcpClosing`, `SeqCheckProofs` | `HandshakeIsSafe`, `CompletesIff`, `SendAccounting`, `UnaIsLargest`, `ResetIff`, `FinAckedIff`, `GoesBackIff` |
| ports and socket lookup | `Ports`, `BindHash`, `SockHash`, `Listeners` | `PortsOverRuns`, `LookupOverRuns`, `ListenersDifferIff`, `ListenSharesIff` |
| IP fragmentation | `IpFragment`, `IpFragmentProofs`, `IpReassemblyRuns`, `IpOverlap`, `IpFragTable` | `SplitThenReassemble`, `FullIffAll`, `TableStaysOk`, `KeptApartIff` |
| packet ring | `PacketRing`, `PacketRingProofs`, `RingProgress`, `FastPipe` | `RingIsFifo`, `NoRace`, `PutCompletes`, `GetCompletes` |
| ARP cache | `ArpCache`, `ArpProofs`, `ArpAddresses`, `ArpReplies`, `ArpDevices`, `ArpTable` | `PacketsAreConserved`, `FifthTickFrees`, `PacketsGoWhereHeard`, `RepliesAreOwed`, `RememberedIff` |
| routes | `Masks`, `Routes` | `LongestPrefixMatch`, `AgreeIffPrefix`, `ParsedMask` |
| checksums | `Checksum`, `NetworkOrder` | `PseudoChecksumIsRfc1071`, `SetThenCheck`, `ChangedWordDetected`, `EchoReplyVerifiesIff` |

How the model reads the source:

- Every handler and user call is one atomic step, except in the packet ring, where each shared access
  and each copied byte is a step of its own under sequential consistency.
- 32-bit arithmetic is written out (`Wrap32`) in the control block, the checksum and the ring. The
  receive side uses natural numbers: the source compares sequence numbers as plain unsigned integers
  (tcp/tcp_reass.c:32, include/tcp.h:181), and `SeqCheckIsAcceptable` ties the two while nothing wraps.
- The host is little-endian; ports and addresses are kept in network order as the source keeps them.
- Clocks, initial sequence numbers, the accept queue's answer and what the peer or the network sends
  are parameters, and the theorems hold for every value of them.

Where the code does not do what its comments, its assertions or the standards say, the model follows the
code and the exact condition is proved:

- Reassembly (tcp/tcp_reass.c:31-37) trims an arriving segment against its predecessor only when a later
  entry exists. Text that starts inside the last queued entry is queued next to it, and an empty pushed
  segment can be queued as an entry of its own. `TextStepIff` gives the exact segments that keep the
  queue in order; `RepeatedLastSegmentFails` is a run of three segments after which the assertion of line
  68 fails, and `OverlapIsOverread` one where an entry is cut to a negative length (line 42).
- The sequence check (tcp/tcp_state.c:244-263) takes two kinds of segment that section 3.3 of RFC 793
  refuses (`SeqCheckVersusRfc`), and once `rcv_nxt + rcv_wnd` wraps it refuses the segment expected next
  (`NextSegmentPassesIff`). A handshake whose first window wraps can therefore never complete (`CompletesIff`).
- FIN-WAIT-1, CLOSING and LAST-ACK are left on any acknowledgment that makes progress, not only on that
  of the FIN (tcp/tcp_state.c:414-437). Over the runs that follow a close, the two agree if and only if
  nothing was outstanding at the close (`FinAckedIff`); `FinWait2TooEarly` is a run where they do not.
- The checksum keeps 32 bits without an end-around carry, so pseudo header addresses can overflow it
  (lib/checksum.c:38-48). `PseudoChecksumIffNoOverflow` says when the result is that of RFC 1071, and
  `PseudoSumOverflows` gives two hosts for which it is not. A receiver with the same arithmetic still accepts
  what was set, except that UDP's 0xffff for 0 wraps the one sum 0xffffffff (`SetThenCheck`, `UdpSumWraps`).
- The echo reply adjustment fails for a message that is zero from the identifier on (ip/icmp.c:140-155,
  `EchoReplyVerifiesIff`, `ZeroEchoFails`).
- The comment at tcp/tcp_sock.c:133-136 says binding already keeps listeners apart. Two kinds of closed socket
  have a port they do not own: a failed or reset connect gives the port back while `sk_sport` stays set, and an
  accepted connection has the port of its listener without a bind (tcp/tcp_state.c:55). Either may listen. The
  runs are `SharedPortExample`, `SquatterExample` and `AcceptedChildExample`; a listen call makes a port shared
  if and only if another socket, its owner or not, already listens on it (`ListenSharesIff`, `ListenersDifferIff`).
- A FIN sets `rcv_nxt` behind itself even when text before it is missing (tcp/tcp_state.c:560), so that text is
  acknowledged and, since nothing below `rcv_nxt` is taken again, lost (`NothingAfterFin`, `FinOvertakesText`). Over
  runs of both ends no acknowledgment claims undelivered text if and only if no FIN overtakes text (`AcksAreHonestIff`).
- Reassembly of IP compares a fragment with the one in front of it only (ip/ip_frag.c): it may overlap what starts behind
  it (`KeptApartIff`, `OverlapIsKept`).
- A socket whose connect failed is closed but may still be made a listener (tcp/tcp_sock.c:210-217), the one
  way an opened control block goes back to an earlier phase (`GoesBackIff`, `FailedConnectListens`).

## Model

| member | source | states |
|---|---|---|
| CircularBuffer.CBuf.constructor | lib/cbuf.c:18-26 | a new buffer is empty and has the size asked for |
| CircularBuffer.CBuf.HeadRight | include/cbuf.h:28-32 | with free space the run right of the write point is not empty, is free and stays inside the array |
| CircularBuffer.CBuf.TailRight | include/cbuf.h:33-37 | with used space the run right of the read point is not empty and stays inside the array |
| CircularBuffer.CBuf.CopyIn | lib/cbuf.c:36-40 | copying a chunk to the write point appends it to the queue |
| CircularBuffer.CBuf.Write | lib/cbuf.c:28-45 | appends exactly the prefix that fits, across wrap-around and the full/empty ambiguity |
| CircularBuffer.CBuf.Read | lib/cbuf.c:47-69 | returns the oldest bytes, and what is returned followed by what stays is what was queued |
| TcpReceiveProofs.AbsorbAdds | tcp/tcp_reass.c:39-61 | absorbing and cutting keeps the queue ordered and disjoint and adds exactly the chunk's bytes |
| TcpReceiveProofs.MergeAdds | tcp/tcp_reass.c:31-61 | unless the chunk starts inside the last entry, merging keeps the order and adds exactly its bytes |
| TcpReceiveProofs.WriteKeepsOrder | tcp/tcp_text.c:17-35 | writing the bytes numbered from `rcv_nxt` keeps what the user has plus what is buffered equal to the stream |
| TcpReceiveProofs.DrainDelivers | tcp/tcp_reass.c:63-75 | draining an ordered queue never trips the assertion, loses only bytes past the right edge, leaves nothing deliverable |
| TcpReceiveProofs.SafeTextStep | tcp/tcp_text.c:43-73 | a safe segment: its bytes in the window are delivered or queued, nothing held is lost, the right edge stays |
| TcpReceiveProofs.EmptyIsInserted | tcp/tcp_reass.c:54-61 | an empty pushed segment not inside an earlier entry becomes an entry of its own |
| TcpReceiveProofs.OverlapIsAppended | tcp/tcp_reass.c:31-37 | text that starts inside the last entry is appended untrimmed and breaks the order |
| TcpReceiveProofs.TextStepIff | tcp/tcp_reass.c:23-82 | from a well-formed state no segment trips the assertion at once, and the state stays well-formed iff the segment is safe |
| TcpReceiveProofs.StepMovesWindow | tcp/tcp_sock.c:339-394 | every text, read or close step, of any segment on any queue, keeps the window equal to the free space; the right edge moves by what is read |
| TcpReceiveProofs.StepKeeps | tcp/tcp_reass.c:23-82 | a handled step keeps the queue in order and above `rcv_nxt` |
| TcpReceiveProofs.WindowRun | tcp/tcp_text.c:17-35 | over every run of any segments, reads and closes the window is the free space of the buffer and the right edge moves by exactly what is read |
| TcpReceiveProofs.HandledRuns | tcp/tcp_reass.c:63-69 | over every handled run no assertion fails and the queue stays in order |
| TcpReceiveProofs.StreamRun | tcp/tcp_text.c:43-73 | over every run that has not failed, safe segments or not, the user's bytes and the buffer are the stream in order; queued chunks are the stream at their number |
| TcpReceiveProofs.HeldRun | tcp/tcp_reass.c:23-82 | no byte that was in the window when held or carried is ever lost |
| TcpReceiveProofs.OnlyOffered | tcp/tcp_reass.c:23-82 | over every run that has not failed no byte is held that no segment carried |
| TcpReceiveProofs.CloseForgets | tcp/tcp_sock.c:276-308 | after a close, over every run, nothing that was only queued is held unless a segment carries it again |
| TcpReceiveProofs.ReceiveStream | tcp/tcp_sock.c:368-391 | from a fresh connection, over every run that has not failed, the user reads exactly the stream; over safe segments it does not fail, and all bytes that arrived in the window are delivered |
| TcpReceiveProofs.RepeatedLastSegmentFails | tcp/tcp_reass.c:31-69 | a run from a fresh connection: a segment, its repeat and the text in front of it fail the assertion |
| TcpReceiveProofs.OverlapIsOverread | tcp/tcp_reass.c:31-46 | a run from a fresh connection: an overlap with the last entry, then text ending inside it, is cut to a negative length |
| TcpReceiver.MergeQueue | tcp/tcp_reass.c:31-61 | the search loop with its trim computes the merge, for every queue |
| TcpReceiver.AbsorbQueue | tcp/tcp_reass.c:39-61 | the loop that deletes covered entries and cuts the tail computes the absorb, for every queue |
| TcpReceiver.TcpSock.constructor | tcp/tcp_sock.c:424-441 | a new socket is the fresh receiver with the default window |
| TcpReceiver.TcpSock.WriteBuf | tcp/tcp_text.c:17-35 | allocates the buffer at need, writes what fits, moves `rcv_nxt` and `rcv_wnd` by that much |
| TcpReceiver.TcpSock.DrainReass | tcp/tcp_reass.c:63-75 | the drain loop over the queue and the buffer computes the drain, assertion failure included |
| TcpReceiver.TcpSock.SegmentReass | tcp/tcp_reass.c:23-82 | merge, drain and push flag together; over runs the flag is that of `TcpPush.PushRun` |
| TcpReceiver.TcpSock.RecvText | tcp/tcp_text.c:43-73 | zero window, old text, in-order text and out-of-order text, each with its new state and with whether an acknowledgment is asked for |
| TcpReceiver.TcpSock.RecvFin | tcp/tcp_state.c:534-539 | a FIN pushes what is buffered |
| TcpReceiver.TcpSock.Fill | tcp/tcp_sock.c:368-373 | hands out the oldest bytes and opens the window by as many |
| TcpReceiver.TcpSock.RecvBuf | tcp/tcp_sock.c:368-391 | the read loop: all that is buffered up to the length asked, in order; it blocks iff it wants more than is buffered and nothing was pushed |
| TcpReceiver.TcpSock.Read | tcp/tcp_sock.c:339-394 | a read is refused iff the state cannot be read from or is CLOSE-WAIT with nothing buffered, and then changes nothing; otherwise it blocks iff it wants more than is buffered and nothing was pushed |
| TcpReceiver.TcpSock.Close | tcp/tcp_sock.c:276-308 | closing frees buffer and queue |
| TcpPush.StepPushes | tcp/tcp_text.c:62-63 | the push flag is set by a pushed segment that moved `rcv_nxt`, and cleared by a read that took all there was |
| TcpPush.PushRun | tcp/tcp_reass.c:77-78 | over every run the flag is set iff some pushed segment brought text and no read since took all there was |
| TcpPush.ReadBlocksIff | tcp/tcp_sock.c:374-388 | over every run from a fresh connection a read for more than is buffered sleeps iff nothing was pushed since the last read that took all |
| TcpPush.PushedReadReturns | tcp/tcp_sock.c:384-388 | after a pushed segment that brought text every read returns until one takes all there is |
| TcpStream.TextSlices | tcp/tcp_text.c:94-118 | each segment of a send is the part of the data at its number |
| TcpStream.RunIsNumbered | tcp/tcp_sock.c:310-337 | over every run of the sender each step emits parts of the bytes it takes, numbered on from those before |
| TcpStream.EmittedSlices | tcp/tcp_text.c:75-118 | all text of a run is cut from the data its send calls accepted |
| TcpStream.ReceivedIsPrefix | tcp/tcp_text.c:43-73 | whatever order, repetition and overlap segments are delivered in, until an assertion fails what is read is a prefix of the data they were cut from |
| TcpStream.SentIsReceived | tcp/tcp_sock.c:310-394 | user to user, over every run of the sender and every run of the receiver that has not failed: text read and buffered is a prefix of the data sent; over safe segments the run does not fail, and it is all of the data once all has arrived in the window |
| TcpEnds.TextReaches | tcp/tcp_text.c:43-73 | text that ends at or before a number takes the receive side no further than it, whatever is queued |
| TcpEnds.ReceiveStep | tcp/tcp_state.c:284-573 | an arriving segment with the receive side it calls: the block agrees with what was delivered until a FIN is let in, and the answer acknowledges exactly what the block expects |
| TcpEnds.LocalKeeps | tcp/tcp_sock.c:310-394 | every send, read, delivery and close at either end keeps acknowledged, expected, delivered and sent in order, until the second end closes |
| TcpEnds.JoinedIsOk | tcp/tcp_state.c:147-228 | every handshake starts in that order as soon as the opener is up, with all its late segments and whether the child is up or not |
| TcpEnds.AckedIsDelivered | tcp/tcp_state.c:378-463 | from any handshake, over every run of both ends, handshake segments, text and one FIN in any order: `snd_una` and every acknowledgment in flight stay at or below what the other end expects, which is what it delivered until a FIN was let in |
| TcpEnds.AckIsTaken | tcp/tcp_state.c:414-437 | delivering the newest acknowledgment of the other end makes `snd_una` exactly what that end expects next |
| TcpEnds.TextIsAnswered | tcp/tcp_text.c:55-68 | text that is delivered is acknowledged at once, up to the last byte delivered |
| TcpEnds.NoReadSleepsAfterFin | tcp/tcp_state.c:534-539 | over every run from any handshake no read sleeps after a FIN was let in: text left is pushed |
| TcpEnds.WindowsAreFreeSpace | tcp/tcp_text.c:79-89 | over every run each segment announces, when it is sent, the free space of the window and the number expected next |
| TcpEnds.FinAcknowledgesIff | tcp/tcp_state.c:526-563 | whatever it acknowledges itself, a FIN that is let in is answered at once, and the answer covers only delivered text and the FIN iff all in front of the FIN was delivered |
| TcpEnds.LocalHonest | tcp/tcp_state.c:526-563 | in every state of both ends, an action makes an acknowledgment claim undelivered text iff it lets in a FIN before the text in front of it |
| TcpEnds.AcksAreHonestIff | tcp/tcp_state.c:526-563 | over every run from any handshake: no acknowledgment ever claims undelivered text iff every FIN let in finds the text in front of it delivered |
| TcpEnds.NothingAfterFin | tcp/tcp_state.c:510-516 | over every run, after a FIN was let in nothing more is delivered at that end |
| TcpEnds.FinOvertakesText | tcp/tcp_state.c:560-563 | after any handshake one byte and a FIN are sent and the FIN arrives first: whatever follows, the byte is claimed, not delivered, and fails the sequence check |
| Handshake.ChildSeesSyn | tcp/tcp_state.c:297-304 | a repeated SYN fails the sequence check and is answered by an acknowledgment |
| Handshake.ChildSeesAck | tcp/tcp_state.c:384-412 | the opener's acknowledgment establishes the child or leaves it as it is, without a reset |
| Handshake.OpenerSeesSynAck | tcp/tcp_state.c:147-228 | a SYN+ACK, first or repeated, leaves the opener established and acknowledging |
| Handshake.OpenerSeesAck | tcp/tcp_state.c:147-228 | the child's acknowledgment changes no state and draws no reset |
| Handshake.RunKeeps | tcp/tcp_state.c:284-573 | every step of the two-party system keeps the handshake invariant |
| Handshake.HandshakeIsSafe | tcp/tcp_state.c:47-228 | under loss, duplication and reordering no reset is ever sent, and two established ends agree on all four numbers |
| Handshake.IssStaysInRange | tcp/tcp_state.c:39-45 | the allocator cycles through its range and never draws 0xffffffff |
| Handshake.ResetIffLastNumber | tcp/tcp_state.c:155-170 | the opener resets the answer to its own SYN iff its initial number is 0xffffffff |
| Handshake.WrappedWindowBlocks | tcp/tcp_state.c:244-263 | once the first window wraps no run brings both ends up |
| Handshake.CleanRunCompletes | tcp/tcp_sock.c:168-204 | without a wrap there is a run that brings both ends up |
| Handshake.CompletesIff | tcp/tcp_state.c:244-263 | the handshake can complete iff the opener's first window does not wrap |
| SendSide.TextSegmentsCarry | tcp/tcp_text.c:94-118 | segments are contiguous, none above the size limit, concatenate to the data, PSH on the last only |
| SendSide.SendCarries | tcp/tcp_text.c:75-118 | a send emits the first bytes that fit the window and moves `snd_nxt` and `snd_wnd` by the returned count |
| SendSide.SendRefusedIff | tcp/tcp_sock.c:310-337 | a send returns -1 and changes nothing iff the state does not send, there is nothing to send or the window is closed |
| SendSide.FieldsKeep | tcp/tcp_state.c:332-567 | no arriving segment moves `snd_nxt`, moves `snd_una` back, or makes text or FIN |
| SendSide.StepAdvances | tcp/tcp_sock.c:276-337 | every call, arrival and timeout keeps the accounting of text and FIN |
| SendSide.RunAdvances | tcp/tcp_state.c:378-463 | from any point of a run on, `snd_una` never decreases while nothing wraps, and no text follows the FIN |
| SendSide.SendAccounting | tcp/tcp_state.c:109-114 | over every run `snd_nxt` is `iss + 1 +` text sent `+` FIN sent, at most one FIN, `snd_una` between `iss` and `snd_nxt` |
| TcpAcks.ArriveMoves | tcp/tcp_state.c:378-463 | after any segment in any state `snd_una` is the larger of itself and an acknowledgment number that counts |
| TcpAcks.UnaIsLargest | tcp/tcp_state.c:378-463 | over every run `snd_una` is the largest acknowledgment number let in |
| TcpAcks.ArriveState | tcp/tcp_state.c:296-558 | the next state of a synchronized connection for every segment |
| TcpAcks.CloseCompletes | tcp/tcp_state.c:414-437 | the acknowledgment of our FIN and the FIN of the peer lead to TIME-WAIT in either order and in one segment |
| TcpAcks.StepAnnounces | tcp/tcp_out.c:98-133 | every segment sent, resets apart, carries the window, the expected number and the send number of its block |
| TcpAcks.FinIsAnswered | tcp/tcp_state.c:559-571 | an acceptable FIN is answered by the number behind it |
| TcpAcks.UnacceptableIsAnswered | tcp/tcp_state.c:298-304 | a segment outside the window changes nothing and is answered unless it is a reset |
| TcpResets.ResetIff | tcp/tcp_state.c:296-412 | in every state exactly the segments that have no place in the connection draw a reset, one each |
| TcpResets.ListenIff | tcp/tcp_state.c:75-125 | a listener makes a child for a SYN alone and answers an acknowledgment by a reset |
| TcpResets.RefusedConnectCloses | tcp/tcp_out.c:62-93 | the reset that answers the SYN of a connect closes it |
| TcpResets.ResetCloses | tcp/tcp_out.c:62-93 | the reset that answers a segment of a synchronized connection is acceptable to that connection, closes it and is not answered |
| TcpResets.ResetUnanswered | tcp/tcp_out.c:66-67 | no reset is ever answered |
| TcpResets.SynSentState | tcp/tcp_state.c:147-228 | SYN-SENT: the next state and the answer for every segment |
| TcpResets.SynRecvState | tcp/tcp_state.c:296-412 | SYN-RECEIVED: the next state for every segment |
| TcpResets.CrossingSyns | tcp/tcp_state.c:213-222 | crossing SYNs lead to SYN-RECEIVED, and the SYN+ACK that answers them is old to the other end and is answered by an acknowledgment |
| TcpResets.CallsGoOn | tcp/tcp_sock.c:276-308 | a close call leads on from exactly the three states that can be closed, and the timer from TIME-WAIT |
| TcpResets.FailedConnectIsSilent | tcp/tcp_sock.c:196-206 | over every run a connect that was interrupted or brought no connection sends nothing again |
| TcpClosing.FinLastLeaves | tcp/tcp_state.c:414-437 | while at most the FIN is outstanding, every acknowledgment that leaves a closing state is that of the FIN |
| TcpClosing.EarlyAckArrives | tcp/tcp_state.c:414-437 | an acknowledgment of one outstanding byte moves FIN-WAIT-1 to FIN-WAIT-2 and LAST-ACK to CLOSED |
| TcpClosing.FinAckedIff | tcp/tcp_state.c:414-437 | over every run after a close, the closing states are left only on the acknowledgment of the FIN iff nothing was outstanding at the close |
| TcpClosing.FinWait2TooEarly | tcp/tcp_state.c:426-427 | accept, one byte, close, acknowledgment of the byte: FIN-WAIT-2 with the FIN unacknowledged |
| TcpRuns.StepWalks | tcp/tcp_state.c:284-573 | every call, arrival and timeout, listen and connect returns included, moves along the connection diagram of RFC 793 |
| TcpRuns.WalkIsArrows | tcp/tcp_state.c:378-567 | a move is at most two arrows of the diagram, an ACK and a FIN in one segment |
| TcpRuns.GoesBackIff | tcp/tcp_sock.c:206-222 | a step takes an opened block to an earlier phase iff it is a listen call on a closed block |
| TcpRuns.NeverGoesBack | tcp/tcp_state.c:284-573 | over every run without such a call an opened block never returns to an earlier phase |
| TcpRuns.NeverReconnects | socket/inet.c:155-157 | over every run, listen calls included, a connection that has ended sends neither text nor FIN again |
| TcpRuns.FailedConnectListens | tcp/tcp_sock.c:195-217 | a connect that is reset and returns leaves a closed block that a listen call turns into a listener |
| TcpRuns.NewWindowArrives | tcp/tcp_state.c:265-281 | the window of an acceptable segment with a current acknowledgment is taken over iff the segment is not older than the last that set it |
| TcpRuns.ArriveTakesWindow | tcp/tcp_state.c:265-281 | a window is kept or is that of the segment, recorded with the segment's numbers |
| TcpRuns.WindowNeverOlder | tcp/tcp_state.c:274-281 | over every run of a synchronized connection no older window replaces a newer one |
| SeqCheckProofs.SeqCheckVersusRfc | tcp/tcp_state.c:244-263 | without wrap the check is the table of RFC 793 plus exactly two kinds of segment |
| SeqCheckProofs.SeqCheckIsAcceptable | tcp/tcp_state.c:244-263 | without wrap the 32-bit check is the acceptance test of the receive model |
| SeqCheckProofs.NextSegmentPassesIff | tcp/tcp_state.c:244-263 | the segment expected next passes iff neither it nor the window wraps |
| TcpBlock.Block.constructor | tcp/tcp_sock.c:424-441 | a new control block is closed with the default window |
| TcpBlock.Block.Close | tcp/tcp_sock.c:276-304 | a FIN goes out iff the block can still send, takes one number and begins a closing state; nothing else moves |
| TcpBlock.Block.Send | tcp/tcp_sock.c:310-337 | sends iff the state, the data and the window allow it, exactly the bytes that fit, contiguous and pushed at the end |
| TcpBlock.Block.SendText | tcp/tcp_text.c:94-118 | the send loop emits the specified segments and moves `snd_nxt` and `snd_wnd` |
| TcpBlock.Block.InSynSent | tcp/tcp_state.c:147-228 | no text, no FIN, `snd_nxt` stays, `snd_una` moves only to an acknowledgment of the SYN and then the block is established |
| TcpBlock.Block.Process | tcp/tcp_state.c:284-573 | the state walks along the diagram, `snd_nxt` stays, `snd_una` moves only forward and not past it, no text and no FIN goes out |
| Ports.FreePort | tcp/tcp_sock.c:72-79 | fewer bound ports than automatic ports leave an automatic port free (pigeonhole) |
| Ports.ScanFinds | tcp/tcp_sock.c:76-79 | the search stops at the first unused port in cyclic order |
| Ports.AutoBind | tcp/tcp_sock.c:68-106 | with a positive free count a request gets the first unused port of the range |
| Ports.BindFailsIff | tcp/tcp_sock.c:92-106 | a bind fails iff its port is taken, or no port is named and as many are bound as the range holds; failure changes nothing |
| Ports.BindKeepsInv | tcp/tcp_sock.c:92-106 | a bind keeps the balance and gives the socket a port nobody else has |
| Ports.UnbindKeepsInv | tcp/tcp_sock.c:108-120 | a release keeps the balance, also when repeated |
| Ports.RunKeepsInv | socket/inet.c:113-146 | every run of binds and releases keeps the balance and ownership |
| Ports.PortsOverRuns | tcp/tcp_sock.c:52-120 | over every run `bfree +` bound ports `= 0x7001`, owners differ, an automatic bind succeeds iff fewer than 0x7001 are bound |
| Ports.ReleaseUndoesBind | tcp/tcp_sock.c:92-120 | releasing a port just bound restores bindings and count |
| BindHash.OwnerIsLinked | tcp/tcp_sock.c:113-120 | a socket hangs in its bucket iff it owns its port |
| BindHash.LinkKeepsBucket | tcp/tcp_sock.c:86-90 | adding at the head keeps the bucket equal to the ports that hash to it |
| BindHash.UnlinkKeepsBucket | tcp/tcp_sock.c:113-120 | unlinking removes that port and no other |
| BindHash.BindTable.constructor | tcp/tcp_sock.c:443-453 | an empty table counts the whole range as free |
| BindHash.BindTable.PortUsed | tcp/tcp_sock.c:52-66 | the walk of one bucket decides whether any socket has the port |
| BindHash.BindTable.GetPort | tcp/tcp_sock.c:68-84 | the unbounded search loop terminates and returns the port of the bounded scan |
| BindHash.BindTable.SetSport | tcp/tcp_sock.c:92-106 | the hash table refines binding on the port map, and keeps the balance |
| BindHash.BindTable.Link | tcp/tcp_sock.c:86-90 | linking binds the port and takes one off the count |
| BindHash.BindTable.Unbhash | tcp/tcp_sock.c:108-120 | the hash table refines release on the port map; a socket not linked changes nothing |
| SockHash.HashIsSymmetric | include/tcp_hash.h:32-41 | the hash is the same for both directions of a connection |
| SockHash.PeerInBucket | tcp/tcp_sock.c:10-25 | one bucket finds the connection a scan of all sockets finds |
| SockHash.ListenerInBucket | tcp/tcp_sock.c:27-39 | one bucket finds the listener a scan of all sockets finds |
| SockHash.UnlinkInEBucket | tcp/tcp_sock.c:149-153 | unhashing a connection changes its own bucket only |
| SockHash.UnlinkInLBucket | tcp/tcp_sock.c:149-153 | unhashing a listener changes its own bucket only |
| SockHash.RunKeepsUnique | include/tcp_hash.h:43-56 | over every run no two hashed connections share both ends |
| SockHash.PeerIsUnique | tcp/tcp_sock.c:10-25 | the hashed connection with the segment's ends is the one found |
| SockHash.FoundPeer | tcp/tcp_sock.c:17-24 | the walk returns none iff no connection mirrors the segment |
| SockHash.HashRefusesIff | tcp/tcp_sock.c:122-148 | hashing is refused iff the socket is closed or a connection whose two ends another has, and otherwise adds it alone |
| SockHash.FoundListener | tcp/tcp_sock.c:33-38 | the walk returns the most recently hashed listener that accepts, or none iff none does |
| SockHash.LookupOverRuns | tcp/tcp_sock.c:42-50 | over every run the bucket lookup is the flat scan: the only mirrored connection, else a matching listener, and none only if nothing fits |
| SockHash.SockTable.constructor | tcp/tcp_sock.c:443-449 | both tables start empty |
| SockHash.SockTable.LookupEstablish | tcp/tcp_sock.c:10-25 | the loop over one bucket returns the flat scan's connection |
| SockHash.SockTable.LookupListen | tcp/tcp_sock.c:27-39 | the loop over one bucket returns the flat scan's listener |
| SockHash.SockTable.LookupSock | tcp/tcp_sock.c:42-50 | connection first, listener second |
| SockHash.SockTable.HashIn | tcp/tcp_sock.c:122-147 | refuses closed sockets and conflicting connections, otherwise hashes at the head |
| SockHash.SockTable.UnhashOut | tcp/tcp_sock.c:149-153 | unlinks the socket, or nothing if it is not hashed |
| Listeners.DoKeepsOwned | tcp/tcp_sock.c:206-222 | every call keeps listeners owners of their ports if a listening socket owns its port |
| Listeners.ListenersDiffer | tcp/tcp_sock.c:130-136 | in every run where only owners listen, no two listeners share a port |
| Listeners.DoKeepsLinked | tcp/tcp_sock.c:122-222 | every call of every run, accepted connections included, keeps hashed listeners known by their own port |
| Listeners.CloseReleases | tcp/tcp_sock.c:276-308 | closing a listener frees its port for the next bind iff it owned it, and leaves the owner's otherwise |
| Listeners.SharesIff | tcp/tcp_sock.c:27-39 | a listener is already on the port iff another socket that owns the port listens or one that does not own it does |
| Listeners.ListenSharesIff | tcp/tcp_sock.c:130-136 | a listen call makes two listeners share its port iff another socket, owner of the port or not, already listens on it |
| Listeners.ListenersDifferIff | tcp/tcp_sock.c:130-136 | in every run listeners differ in their ports all along iff no listen call finds its port listened on |
| Listeners.SharedPortExample | tcp/tcp_sock.c:197-202 | failed connect, rebind by another socket, owner listens, loser listens: segments reach the socket that does not own the port |
| Listeners.SquatterExample | tcp/tcp_sock.c:197-202 | failed connect, loser listens, rebind by another socket: the owner's own listen call makes the port shared |
| Listeners.AcceptedChildExample | tcp/tcp_state.c:47-73 | an accepted connection that is reset leaves a closed socket with its listener's port, whose listen call puts it beside its parent |
| IpFragmentProofs.FieldRoundTrip | include/ip.h:13-17 | offset and more-fragments bit survive the fragment field |
| IpFragmentProofs.SplitIsPartition | ip/ip_frag.c:218-273 | fragments fit the MTU, all but the last are multiples of 8, and together they partition the payload |
| IpFragmentProofs.SpottedInSelect | ip/ip_frag.c:129-143 | the backward scan finds the place of a missing fragment among those present, or the duplicate |
| IpFragmentProofs.TotalIffAll | ip/ip_frag.c:164-169 | the received size equals the total iff no fragment is missing |
| IpFragmentProofs.FullIffAll | ip/ip_frag.c:12-16 | a record is full iff all fragments are present |
| IpFragmentProofs.InsertCollects | ip/ip_frag.c:100-175 | inserting a fragment adds exactly it, in order, or drops it as a duplicate |
| IpFragmentProofs.RebuildIsOriginal | ip/ip_frag.c:59-97 | joining all fragments gives the original packet |
| IpReassemblyRuns.InsertStaysOpen | ip/ip_frag.c:100-175 | after any insertion a record is complete or has something collected and something missing |
| IpReassemblyRuns.ReassIsLocal | ip/ip_frag.c:189-216 | an arrival touches the record of its own key only and keeps the list in shape |
| IpReassemblyRuns.TimerIsLocal | ip/ip_frag.c:276-306 | a tick ages every record and forgets exactly those whose time is up |
| IpReassemblyRuns.TableStaysOk | ip/ip_frag.c:177-216 | over every run each record is incomplete, not empty and the only one for its key |
| IpReassemblyRuns.ArrivalStep | ip/ip_frag.c:189-216 | the datagram is handed up at exactly the arrival of the last missing fragment |
| IpReassemblyRuns.OnlyOriginals | ip/ip_frag.c:189-216 | whatever is handed up for the key is the original packet |
| IpReassemblyRuns.AllArriveDelivers | ip/ip_frag.c:189-306 | if all missing fragments arrive in time the packet is handed up |
| IpReassemblyRuns.SplitThenReassemble | ip/ip_frag.c:59-273 | split, then any order, duplicates, other traffic and ticks: only the original comes out, and it comes out if all arrive in time |
| IpOverlap.InsertDropsIff | ip/ip_frag.c:128-165 | a fragment other than the last is dropped iff its offset is taken, its header length differs or it starts inside an earlier one |
| IpOverlap.KeptApartIff | ip/ip_frag.c:128-165 | a fragment that is kept leaves the list free of overlap iff it ends before what starts behind it |
| IpOverlap.OverlapIsKept | ip/ip_frag.c:128-165 | sixteen bytes at offset 0 after eight at offset 8: both are kept and overlap |
| IpFragTable.SendFrag | ip/ip_frag.c:245-273 | the sending loop emits the specified fragments in order |
| IpFragTable.ScanBack | ip/ip_frag.c:129-143 | the backward loop finds the specified place |
| IpFragTable.FragTable.constructor | ip/ip_frag.c:10-10 | the list starts empty |
| IpFragTable.FragTable.LookupFrag | ip/ip_frag.c:177-187 | the walk finds the record of the key |
| IpFragTable.FragTable.InsertFrag | ip/ip_frag.c:100-175 | the in-place insertion computes the specified record and verdict |
| IpFragTable.FragTable.Reassemble | ip/ip_frag.c:189-216 | the handler computes the specified list and packet |
| IpFragTable.FragTable.Tick | ip/ip_frag.c:276-306 | the timer loop with removal in place computes the specified list |
| PacketRing.Decode32OfEncode32 | net/fast_pipe.c:113-118 | the length word survives its four bytes |
| PacketRingProofs.ProduceKeepsInv | net/fast_pipe.c:99-129 | every producer step keeps the ring invariant |
| PacketRingProofs.ConsumeKeepsInv | net/fast_pipe.c:131-158 | every consumer step keeps the ring invariant |
| PacketRingProofs.HeaderIsLength | net/fast_pipe.c:131-150 | the header the consumer reads is the length of the oldest unread packet |
| PacketRingProofs.StepKeepsInv | net/fast_pipe.c:99-158 | every interleaved step keeps the ring invariant |
| PacketRingProofs.RingIsFifo | net/fast_pipe.c:99-158 | under every interleaving the packets got are a prefix of those put, byte for byte, and `used` counts the unread frames |
| PacketRingProofs.FramesApart | net/fast_pipe.c:99-158 | the frame being written and the frame being read share no byte of the ring |
| PacketRingProofs.NoRace | net/fast_pipe.c:37-77 | under every interleaving the regions being copied in and out are disjoint, whatever the order inside a copy |
| RingProgress.PutStartsIff | net/fast_pipe.c:99-113 | under every interleaving a put starts iff its frame fits beside the unread frames |
| RingProgress.GetStartsIff | net/fast_pipe.c:127-135 | a get starts iff a packet is unread |
| RingProgress.PutCompletes | net/fast_pipe.c:99-124 | a put that started takes effect, whatever the consumer does meanwhile |
| RingProgress.GetCompletes | net/fast_pipe.c:127-158 | a get that started returns the oldest unread packet iff it is no longer than the buffer, whatever the producer does meanwhile |
| FastPipe.WrittenAt | net/fast_pipe.c:37-53 | a push changes at most two runs of the array, and only those |
| FastPipe.Pipe.constructor | net/fast_pipe.c:6-19 | a new ring holds no packet |
| FastPipe.Pipe.PushData | net/fast_pipe.c:37-53 | one or two copies write the bytes around the end and return the next index |
| FastPipe.Pipe.ShiftData | net/fast_pipe.c:61-77 | one or two copies read the bytes around the end and return the next index |
| FastPipe.Pipe.PutPacket | net/fast_pipe.c:99-129 | appends the packet iff its frame fits, otherwise changes nothing |
| FastPipe.Pipe.GetPacket | net/fast_pipe.c:131-158 | removes the oldest packet iff there is one and the caller's buffer takes it |
| ArpCache.Lookup | arp/arp_cache.c:126-141 | the index found is the first that holds the address, or the size iff none does |
| ArpProofs.PutEntry | arp/arp_cache.c:110-124 | writing an entry changes the answer for its own address only and keeps one live entry per address |
| ArpProofs.SearchFinds | arp/arp_cache.c:84-92 | the round-robin search ends at a free slot if there is one |
| ArpProofs.SearchIff | arp/arp_cache.c:84-97 | allocation succeeds iff some slot is free |
| ArpProofs.SendSeen | ip/ip_out.c:29-48 | what a send does to each address: transmit, queue, or for a first packet queue and ask iff a slot is free, else drop |
| ArpProofs.ReceiveSeen | arp/arp.c:72-84 | what an ARP packet does to each address: pending packets leave in order; an unknown sender is learnt iff it asks and a slot is free, and what is learnt lives 600 seconds |
| ArpProofs.TimerSeen | arp/arp_cache.c:152-177 | what a tick does to each address |
| ArpProofs.PacketsAreConserved | arp/arp_cache.c:53-177 | over every run each packet is transmitted, dropped or pending exactly once, transmissions and drops both in order; one live entry per address |
| ArpProofs.Unanswered | arp/arp_cache.c:152-177 | each unanswered tick makes one request, whatever else happens |
| ArpProofs.FifthTickFrees | arp/arp_cache.c:160-173 | exactly four further requests, and the fifth tick frees the entry and drops its packets in order |
| ArpAddresses.SendUsesHeard | ip/ip_out.c:45-48 | a packet sent at once carries the address heard last |
| ArpAddresses.ArriveUsesHeard | arp/arp.c:72-84 | flushed packets carry the address just heard, and resolved entries hold it |
| ArpAddresses.PacketsGoWhereHeard | arp/arp.c:52-92 | over every run each packet leaves with the hardware address its destination announced last |
| ArpReplies.ReactReplies | arp/arp.c:60-88 | the replies of a step are the one owed to a request for this host, and none otherwise |
| ArpReplies.RepliesAreOwed | arp/arp.c:52-92 | over every run exactly the requests for this host are answered, in order |
| ArpReplies.RememberedIff | arp/arp_cache.c:152-177 | over every run in which nobody tells it again, a hardware address is known iff less than 600 seconds have passed |
| ArpDevices.PacketsKeepDevice | arp/arp_cache.c:53-63 | over every run packets and requests for an address leave on the device its packets were given for |
| ArpTable.Table.constructor | arp/arp_cache.c:179-187 | the cache starts with free slots |
| ArpTable.Table.FindEntry | arp/arp_cache.c:126-141 | the walk finds the first live entry for the address |
| ArpTable.Table.Alloc | arp/arp_cache.c:76-108 | the round-robin loop takes the specified slot or fails with the cursor where it ended |
| ArpTable.Table.SendTo | ip/ip_out.c:29-48 | the handler computes the specified cache and output |
| ArpTable.Table.SendFirst | ip/ip_out.c:30-41 | the first packet for an address allocates, queues and asks, or is dropped |
| ArpTable.Table.QueueSend | arp/arp_cache.c:53-63 | pending packets leave in order and the queue is empty |
| ArpTable.Table.QueueDrop | arp/arp_cache.c:65-74 | pending packets are dropped in order and the queue is empty |
| ArpTable.Table.Refresh | arp/arp.c:72-79 | a known sender gets its new hardware address, a flushed queue and a new lifetime |
| ArpTable.Table.InsertEntry | arp/arp_cache.c:110-124 | an unknown requester is learnt if a slot is free |
| ArpTable.Table.Recv | arp/arp.c:52-92 | the handler computes the specified cache and output |
| ArpTable.Table.TickSlot | arp/arp_cache.c:157-173 | one slot under the timer: age, ask again, or free and drop |
| ArpTable.Table.Tick | arp/arp_cache.c:152-177 | the timer loop over the slots computes the specified cache and output |
| Masks.ParsedMask | lib/lib.c:55-65 | the mask expression gives the mask of the prefix, for 1 to 32 |
| Masks.MaskOrder | ip/route.c:60-66 | in network order on a little-endian host contiguous masks still order by prefix length |
| Masks.AgreeIffPrefix | ip/route.c:17-18 | addresses agree under the mask of `p` bits iff their first `p` bits in dotted order are the same |
| Routes.MatchesIffInNetwork | ip/route.c:17-18 | a route matches iff the first bits of the address are those of its network |
| Routes.DeleteAfterAdd | ip/route.c:24-69 | a deletion undoes the last addition for its network and passes any other |
| Routes.LookupAfterAdd | ip/route.c:12-22 | after an addition the lookup prefers the new route iff it matches and is at least as long |
| Routes.LookupIsBest | ip/route.c:12-22 | first match in the sorted list is the best route of the log |
| Routes.BestIsLongest | ip/route.c:12-22 | the best route: none iff the address is in no network, else the longest prefix it is in and the newest of its length |
| Routes.ApplyKeepsTable | ip/route.c:24-69 | over every run the list is that of the surviving routes |
| Routes.LongestPrefixMatch | ip/route.c:12-69 | after any additions and deletions the lookup gives the longest prefix, by its bits in dotted order, that the address is in, among surviving routes and newest first |
| Routes.RouteTable.constructor | ip/route.c:10-10 | the table starts empty |
| Routes.RouteTable.AddRoute | ip/route.c:52-69 | the loop inserts before the first mask that is not larger |
| Routes.RouteTable.DeleteRoute | ip/route.c:24-35 | the loop removes the first route of the network, or nothing |
| Routes.RouteTable.LookupRoute | ip/route.c:12-22 | the loop returns the first match |
| Checksum.SumLoop | lib/checksum.c:7-17 | the loop computes the 32-bit sum of the words, odd byte included |
| Checksum.TwoFolds | lib/checksum.c:19-26 | two folds of a 32-bit sum give the ones' complement sum |
| Checksum.ComputeChecksum | lib/checksum.c:19-26 | the complement of the ones' complement sum |
| Checksum.SetChecksum | lib/checksum.c:62-87 | blanks the field and writes the checksum of the rest, 0xffff for 0 with UDP |
| Checksum.SetThenCheck | lib/checksum.c:62-87 | a set checksum verifies, always for IP and TCP, and for UDP iff the 32-bit sum of the rest is not 0xffffffff |
| Checksum.UdpSumWraps | lib/checksum.c:62-74 | an 8-byte UDP datagram from 10.0.0.1 to 10.222.255.254: 0xffff goes out and does not verify |
| Checksum.PseudoChecksumIffNoOverflow | lib/checksum.c:38-48 | the TCP/UDP checksum is that of RFC 1071 iff the 32-bit sum does not overflow |
| Checksum.PseudoSumOverflows | lib/checksum.c:38-48 | the SYN of a connection between two hosts 192.168.1.200: the checksum is one too large |
| Checksum.ChangedWordDetected | lib/checksum.c:19-36 | changing one word goes unnoticed iff it swaps 0x0000 and 0xffff with a rest that is not all zero |
| Checksum.AnswerEcho | ip/icmp.c:132-163 | a request of code 0 becomes the reply in place, others are left alone |
| Checksum.EchoReplyVerifiesIff | ip/icmp.c:140-155 | the adjusted reply to a request that verifies, verifies iff identifier, sequence and data are not all zero |
| Checksum.ZeroEchoFails | ip/icmp.c:140-155 | a request that verifies and is zero from the identifier on, whose reply does not verify |
| NetworkOrder.SumConcat | lib/checksum.c:7-17 | the sum of an even buffer and another is the sum of both |
| NetworkOrder.OddIsPadded | lib/checksum.c:14-15 | an odd buffer has the sum of the buffer with a zero byte behind it |
| NetworkOrder.ChecksumIsRfc1071 | lib/checksum.c:19-36 | the checksum a little-endian host stores is, byte for byte, that of RFC 1071 over words in network order |
| NetworkOrder.PseudoChecksumIsRfc1071 | lib/checksum.c:38-48 | with the pseudo header, byte for byte that of RFC 1071 iff the 32-bit sum does not overflow |

## Left out

- Device drivers, shared-memory setup, system calls, the shell and the applications: foreign I/O and user interface.
- Raw memory layout, packet trimming and the queue header laid over the Ethernet header; packets are values. At tcp/tcp_reass.c:33 the list head has no predecessor, which the model reads as no trim.
- TcpReceiveProofs.ReceiveStream: stops at a failed assertion or an overread; that neither happens and that nothing is lost is stated for safe segments, the ones `TextStepIff` names. Sequence wrap is not covered, and a FIN, which sets `rcv_nxt` directly (tcp/tcp_state.c:560), is in `TcpEnds`.
- TcpStream.SentIsReceived: the same, for data that fits the 32-bit sequence space.
- TcpEnds.AckedIsDelivered: covers runs until the second end closes, and stops at a failed assertion, an overread or data past the 32-bit sequence space.
- TcpClosing.FinAckedIff: covers closes where neither the send nor the receive sequence space wraps; past a wrapped window no segment expected next arrives (`NextSegmentPassesIff`).
- The backlog count: whether the accept queue takes a connection is an arbitrary answer.
- A simultaneous open past SYN-RECEIVED: the code asks the accept queue of a listener that an opener does not have (tcp/tcp_state.c:231-242).
- What the source does after `Overread`, an entry whose length exceeds its text.
- The conflict branch of a connect (tcp/tcp_sock.c:181-184), which sets the initial number and sends nothing.
- Peer window compliance.
- SendSide.SendRefusedIff: does not model the probe the code sends on a closed window (tcp/tcp_text.c:112-116).
- The TIME-WAIT timer list; a block in TIME-WAIT may expire at any time.
- UDP, raw sockets and their port allocation.
- Fragmenting fragments, what is rebuilt from overlapping fragments and a device MTU that leaves less than 8 bytes of payload.
- IpFragment.PayloadAt: a fragment shorter than the record's header length contributes nothing, where the source would subtract into a negative length.
- Routing decisions around the ARP cache (next hop, local delivery, broadcast) before ip/ip_out.c:29.
- Masks.ParsedMask: prefix 0 is excluded because the source shifts by 32; the zero mask itself is covered by the route theorems.
- FastPipe.Pipe.constructor: capacities from 2^31 on are excluded, where the 32-bit index sums of net/fast_pipe.c could wrap.
- A connect call on a listening socket, which rewrites the address of a hashed listener before it fails (socket/inet.c:162-168).
- Reference counts, mutexes and blocking waits; a blocking read is a sequence of atomic reads.
