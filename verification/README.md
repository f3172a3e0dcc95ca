# The VPN data plane in Dafny

A model of what happens to bytes between pppd, the TLS tunnel and the SOCKS proxy, with proofs about it.
`dafny verify dfyconfig.toml` checks the whole project.

The files follow the program:

- `bytes`, `io`: bytes, 16-bit big-endian fields, errors, and the operating system's streams as oracles. A script
  that nobody knows decides how much each read returns and each write takes; an exhausted script blocks.
- `fcs_table`, `fcs`, `hdlc`, `deframing`, `pty_decoder`: the frame check sequence of RFC 1662 (section 3.1 and
  appendix C.2), the codec, the frame finder and the streaming decoder of pppd's pty.
- `packets`, `tls_framing`: the 6-byte TLS framing and its three readers.
- `ipcp_options`, `ppp_engine`, `ppp_runs`, `ppp_history`, `ppp_convergence`: LCP and IPCP (RFC 1661 sections 4 and 5,
  RFC 1332 section 3.3) as a step function, the engine object that performs it, whole runs, what decides them, and runs
  against a peer.
- `write_queue`, `forward`: the forwarding loop between the pty and TLS.
- `pump_queues`, `direct_sessions`, `proxied_sessions`: the byte queues, the pumps and the cleanup of the SOCKS sessions.
- `dns_names`, `dns`: DNS over TCP (RFC 1035 sections 3.1, 4.1 and 4.2.2).
- `routes`: netmasks, networks and the proxy's route table.
- `text_lines`, `resolv_conf`: adding lines to resolv.conf and taking them out again.

Objects whose methods update fields are classes, loops are loops, and each such method is proved against a function
or a predicate about which the theorems are then proved. Long methods and loop bodies are split into named methods
(`QueueForTls`, `WriteChunk`, `SendChunk`, `ForwardOne`, `UnstuffLoop`, `Round` and others). `hide` statements only keep
proofs small.

## Where the code does less than one might expect

Each of these is proved, with the exact condition and, where the state must be reached first, a run that reaches it:

- A PPP link that was closed is closed for good exactly if it never asked for an address (`ClosedIsFinalIff`). A link
  that did reopens on a late acknowledgement (`ClosedLinkReopens`).
- What is queued for a packet fits the tunnel exactly if no rejection quotes too long a packet (`SendableIff`,
  `LongestUnknownIsTooLong`).
- After one frame that does not decode, the pty decoder fails on every later call (`StuckAfterDecodeError`).
- When either side of a direct session ends its stream, what was read from it in that same round is never delivered;
  nothing is lost exactly if there was nothing to read (`HalfCloseDropsLastBytes`, `RemoteCloseDropsLastBytes`). A
  proxied session hands all that the client sent to the TCP socket first (`PumpLocalToTcp`).
- A hard failure of a write drops the chunk that was being written, of at most 16 KiB; nothing else drops any
  (`DropsIff`, `LosesIff`, `RunSession`).
- A proxied session whose socket is shut can be removed exactly if nothing is queued for the socket
  (`QueuedForShutSocketStays`, `QueuedForShutSocketIsReached`).
- Payload comes before the SOCKS reply exactly if some poll, before the first that finds the socket established, meets
  payload and a client that takes it (`ComesEarly`, proved in `RunSession`). Some sessions do so (`PayloadWithoutReply`).
  Payload that a blocked client leaves queued follows the reply as it should.
- `encode_name` accepts names of any number of labels, but the answer to a query for more than 128 is rejected
  (`AnswerToQueryIsUnderstood`).
- Removing the added lines restores resolv.conf exactly if the added lines have no line break and no carriage return
  at their end, and the file itself ended in a line break and had no CR LF (`UndoRestoresIff`).
- The TLS reader of the forwarding loop rejects a bad header at once, the other two only when the announced length
  has arrived (`ParsersAgree`, `DoomedFrame`).

## Model

| member | source | states |
|---|---|---|
| Bytes.BigEndian | src/tunnel/packet.rs:25-27 | of the two bytes of a 16-bit field the one that counts 256 comes first |
| FcsTable.FcsTabIsBitSerial | src/hdlc.rs:3-26 | every one of the 256 table entries is what eight shifts of the bit-serial register make of its index |
| FcsTable.BitStepIsConditional | src/hdlc.rs:3-26 | the shift applies the polynomial 0x8408 of RFC 1662 exactly when a one is shifted out |
| Fcs.FrameChecksum16bit | src/hdlc.rs:182-187 | the table loop computes the checksum of the bit-serial shift register for every start value and byte string |
| Fcs.AddressControlPrefix | src/hdlc.rs:28-29 | starting at 0x3de3 is the same as starting at 0xffff and first feeding ff 03 |
| Fcs.GoodFcsIffTrailer | src/hdlc.rs:75-77 | of all pairs of bytes only the complemented checksum, low byte first, brings the register to 0xf0b8 |
| Fcs.UndetectedIff | src/hdlc.rs:182-187 | two strings of equal length share a checksum exactly when their difference has checksum zero, from any start |
| Fcs.BurstsAreDetected | src/hdlc.rs:152-159 | strings of any length that differ only within 16 consecutive transmitted bits (so in one byte or two adjacent ones) never share a checksum |
| Hdlc.PushEscaped | src/hdlc.rs:165-172 | one byte is appended in its escaped form |
| Hdlc.HdlcCodec.constructor | src/hdlc.rs:43-47 | the first frame will need an opening flag |
| Hdlc.HdlcCodec.Encode | src/hdlc.rs:57-83 | the frame is the opening flag if it is the first, header, stuffed packet and trailer, closing flag |
| Hdlc.FrameSize | src/hdlc.rs:49-51 | the reserved size 9 + 2n is never exceeded |
| Hdlc.EscapeBits | src/hdlc.rs:174-180 | an escaped byte is neither flag nor escape and unescapes to itself; an unescaped one is not dropped by the receiver |
| Hdlc.EscapedBytes | src/hdlc.rs:165-180 | exactly the bytes below 0x20 and 7d, 7e, fd, fe are escaped, by 7d and the byte with bit 0x20 flipped |
| Hdlc.FrameBodyHasNoFlag | src/hdlc.rs:57-83 | no flag occurs between the flags of a frame |
| Hdlc.UnstuffLoop | src/hdlc.rs:126-150 | the unstuffing loop computes the state of the receiver automaton |
| Hdlc.Decode | src/hdlc.rs:114-163 | accepts exactly a non-empty packet followed by the trailer a sender computes, and reports the same errors otherwise |
| Hdlc.UnstuffUndoesStuff | src/hdlc.rs:126-150 | unstuffing gives any stuffed string back |
| Hdlc.DecodeUndoesEncode | src/hdlc.rs:114-163 | a packet survives encoding and decoding exactly when it is not empty |
| Hdlc.ControlsAreIgnored | src/hdlc.rs:126-150 | unescaped control bytes anywhere in a frame do not change what is unstuffed |
| Hdlc.ControlsChangeNothing | src/hdlc.rs:114-163 | a frame of any packet to which the line added unescaped control bytes is decoded to that packet |
| Hdlc.DecodeOutcome | src/hdlc.rs:114-163 | the outcome for every frame: five bytes at least, the optional header ff 7d 23, no escape doubled or left open, three bytes unstuffed, the trailer |
| Hdlc.DecodeRejectsBursts | src/hdlc.rs:152-159 | a frame that unstuffs to an accepted one's content damaged within 16 consecutive bits is rejected for its checksum |
| Deframing.FindFrame | src/hdlc.rs:85-112 | finds the frame that an automaton fed byte by byte emits first, and none exactly when it emits none |
| Deframing.CutIsUndone | src/hdlc.rs:85-112 | the pieces of a stream have no flags, and glued together with flags are the stream |
| Deframing.FramesAreBetweenFlags | src/hdlc.rs:85-112 | the frames that the automaton emits are the pieces with a flag at either end, without the empty ones |
| Deframing.TailReplays | src/tunnel/io.rs:71-87 | the bytes since the last closing flag alone determine everything that follows |
| Deframing.ResumeFromTail | src/tunnel/io.rs:71-87 | receiving more bytes on top of the kept tail gives exactly the frames that are new |
| PtyDecoder.PppdPtyDecoder.constructor | src/tunnel/io.rs:56-58 | the decoder starts with nothing kept |
| PtyDecoder.PppdPtyDecoder.PushBytes | src/tunnel/io.rs:60-90 | returns the packets of all frames the automaton emits on kept and new bytes, or the first error, and keeps exactly the undecided tail |
| PtyDecoder.ChunkingIsIrrelevant | src/tunnel/io.rs:60-90 | for every cutting of a stream: the run succeeds exactly when the chunks fit and every frame of the whole stream decodes, and then yields the packets of the whole stream |
| PtyDecoder.StuckAfterDecodeError | src/tunnel/io.rs:79-87 | after a decode error every later call fails too, with the same error while the buffer lasts |
| PtyDecoder.DeframeEncoded | src/hdlc.rs:57-112 | the automaton cuts the output of one encoder exactly into the encoded frame bodies, also where frames share a flag |
| PtyDecoder.TailBound | src/tunnel/io.rs:60-66 | at no byte of an encoded stream is more than 2L + 8 bytes kept |
| PtyDecoder.StreamRecovery | src/tunnel/io.rs:60-90 | packets encoded by one codec and cut into arbitrary chunks come out in order, only the closing flag is kept, and with 2L + 8 + chunk <= 65536 the size limit is never met |
| Packets.DecodeIffEncode | src/tunnel/packet.rs:18-50 | the receiver accepts exactly the frames a sender produces for non-empty packets |
| Packets.FrameBytes | src/tunnel/packet.rs:23-30 | the bytes of a frame: its length, 50 50, the length of the packet, the packet |
| Packets.EncodableIff | src/tunnel/packet.rs:18-21 | a packet is encoded exactly when it has at most 65529 bytes |
| Packets.HeaderIffFrame | src/tunnel/packet.rs:38-44 | a header is valid exactly when it is that of a non-empty packet of the announced length |
| TlsFraming.TlsPacketStreamDecoder.constructor | src/tunnel/forward.rs:229-231 | the decoder starts with nothing buffered |
| TlsFraming.TlsPacketStreamDecoder.PushBytes | src/tunnel/forward.rs:233-260 | returns what the eager reference parser reads from buffered and new bytes and keeps its leftover |
| TlsFraming.ChunkingIsIrrelevant | src/tunnel/forward.rs:233-260 | however the bytes arrive, the run fails or delivers as if they had come at once |
| TlsFraming.SameStep | src/tunnel/fortinet.rs:53-71 | the eager and the lazy header checks deliver the same frame and the same error |
| TlsFraming.DoomedFrame | src/tunnel/fortinet.rs:53-71 | a frame that only the eager reader has rejected yet can only end in rejection, when its announced length has come |
| TlsFraming.ParsersAgree | src/tunnel/fortinet.rs:53-71 | on every byte string both kinds of reader deliver the same packets; they differ only in when they reject |
| TlsFraming.ParseConserves | src/tunnel/forward.rs:233-260 | the delivered packets re-encoded, followed by the leftover, are the input, whether it ended well or not |
| TlsFraming.ParseResumes | src/tunnel/forward.rs:233-260 | parsing may be interrupted anywhere without changing what is parsed |
| TlsFraming.ParseOfStream | src/tunnel/packet.rs:18-50 | the encodings of packets of 1 to 65529 bytes parse to those packets, whatever follows |
| TlsFraming.NoFrameLooksLikeHttp | src/tunnel/fortinet.rs:57-59 | the check for an HTTP answer never hits a valid frame |
| TlsFraming.HttpIsRefused | src/tunnel/forward.rs:241-243 | a stream that begins with HTTP/1 is refused with the permission error by both kinds of reader |
| TlsFraming.EagerStep | src/tunnel/forward.rs:237-256 | the eager step on every byte string: six bytes, the HTTP check, the header check, the announced length, in this order |
| TlsFraming.FortinetTransport.constructor | src/tunnel/fortinet.rs:19-24 | the transport starts with an empty buffer |
| TlsFraming.FortinetTransport.TryDecodeBufferedPacket | src/tunnel/fortinet.rs:53-71 | takes one lazy step and leaves the buffer untouched when no frame is complete |
| TlsFraming.FortinetTransport.ReadPacket | src/tunnel/fortinet.rs:26-51 | every byte read is in a returned packet or buffered; the buffer holds at most 65534 bytes before a read and 81918 after, so the 1 MiB error never occurs; an I/O failure loses nothing and comes only after all that was readable was read |
| TlsFraming.ReadTlsPacket | src/tunnel/io.rs:19-38 | the blocking reader takes the same lazy step on the stream |
| TlsFraming.ReadPackets | src/tunnel/fortinet.rs:26-51 | read until it fails, under whatever reads the stream gives, the transport returned the packets of all bytes taken, and it fails otherwise than by the stream exactly where the parser rejects |
| TlsFraming.TransportYields | src/tunnel/fortinet.rs:26-71 | a transport that took the frames of a packet list and can return no more has returned that list and buffers nothing |
| TlsFraming.ReadTlsPackets | src/tunnel/io.rs:19-38 | the blocking reader called until it fails returns the packets of the stream, or stops where the parser rejects |
| TlsFraming.ReadersAgree | src/tunnel/forward.rs:233-260 | for any packets of 1 to 65529 bytes the stream decoder under any chunking and the lazy parser, which the other two readers follow, yield these packets |
| IpcpOptions.FirstAddressIsFirst | src/tunnel/ppp_engine.rs:326-345 | the reference address is that of the first type-3 length-6 option, and there is none exactly when there is no such option |
| IpcpOptions.OptionsReadBack | src/tunnel/ppp_engine.rs:326-345 | a list of options written as kind, length and value is read back, whatever follows it |
| IpcpOptions.AddressBytes | src/tunnel/ppp_engine.rs:266-273 | 3, 6 and four octets are read as that address |
| IpcpOptions.ParseIpcpIpAddress | src/tunnel/ppp_engine.rs:326-345 | the loop returns the first address option of the well-formed part of the list |
| IpcpOptions.ControlRoundTrip | src/tunnel/ppp_engine.rs:275-324 | a control packet parses back, with any padding, when its length fits 16 bits |
| IpcpOptions.ParsedIsControl | src/tunnel/ppp_engine.rs:311-324 | a control packet parses exactly from its wire form with any padding behind |
| IpcpOptions.IpcpIpv4Address | src/tunnel/packet.rs:68-99 | the in-place walker over the packet equals the control packet parser followed by the option walker, on every input |
| Ppp.PppEngine.constructor | src/tunnel/ppp_engine.rs:66-79 | the engine starts fresh with an empty queue |
| Ppp.PppEngine.NextIdentifier | src/tunnel/ppp_engine.rs:294-301 | returns the identifier and moves to the next, never to zero |
| Ppp.PppEngine.QueueControl | src/tunnel/ppp_engine.rs:275-284 | one packet joins the end of the queue, its length field truncated to 16 bits |
| Ppp.PppEngine.SendLcpConfigureRequest | src/tunnel/ppp_engine.rs:257-264 | a request with the MRU option under a new identifier, which becomes the current one |
| Ppp.PppEngine.SendIpcpConfigureRequest | src/tunnel/ppp_engine.rs:266-273 | a request for the wanted address under a new identifier, which becomes the current one |
| Ppp.PppEngine.QueueProtocolReject | src/tunnel/ppp_engine.rs:286-292 | a reject that quotes protocol and payload under a new identifier |
| Ppp.PppEngine.Start | src/tunnel/ppp_engine.rs:86-92 | only an initial engine starts |
| Ppp.PppEngine.HandleLcp | src/tunnel/ppp_engine.rs:139-196 | the code's branches perform the step of the protocol on fields and queue |
| Ppp.PppEngine.HandleIpcp | src/tunnel/ppp_engine.rs:198-255 | every branch performs the step of the protocol on fields, queue and events, the address of the peer included |
| Ppp.PppEngine.HandleIncoming | src/tunnel/ppp_engine.rs:94-104 | every packet, well formed or not, has exactly the effect of one protocol step |
| Ppp.PppEngine.NextOutgoing | src/tunnel/ppp_engine.rs:106-108 | the queue is first in, first out |
| Ppp.ClassifySent | src/tunnel/ppp_engine.rs:275-324 | what is queued is read by a receiver as the message it was built from |
| PppRuns.Drive | src/tunnel/ppp_engine.rs:81-302 | the engine object's fields, queue and events over any run are those of the trace the theorems are about |
| PppRuns.StepKeepsInvariant | src/tunnel/ppp_engine.rs:139-302 | each step keeps the invariant and makes one of the listed moves; from Closed only Opened is reachable |
| PppRuns.InvariantHolds | src/tunnel/ppp_engine.rs:139-302 | over every run: Initial and LcpRequestSent have no IPCP identifier, IpcpRequestSent and Opened have both, LcpOpened never rests, an open link has a non-zero address |
| PppRuns.FailureChangesNothing | src/tunnel/ppp_engine.rs:94-104 | a packet is refused exactly when it is malformed, and then changes nothing |
| PppRuns.EventHistory | src/tunnel/ppp_engine.rs:114-116 | over every run the link is open exactly when the last Up or Down was Up, closed exactly when it was Down, and the address is that of the latest Up |
| PppRuns.IdentifiersCycle | src/tunnel/ppp_engine.rs:294-301 | the k-th identifier, from zero, is 1 + k mod 255 |
| PppRuns.StepSplits | src/tunnel/ppp_engine.rs:94-302 | a step allocates at most one identifier, the next one, and sends exactly the reply owed to its input |
| PppRuns.SentHistory | src/tunnel/ppp_engine.rs:94-302 | everything ever queued is the engine's own packets, numbered in order, and the in-order replies owed to the inputs |
| PppRuns.PayloadSizes | src/tunnel/ppp_engine.rs:275-292 | how long a queued packet is in terms of the packet that caused it |
| PppRuns.SentReadsBack | src/tunnel/ppp_engine.rs:275-292 | for every input that TLS can carry, no length field is truncated: each queued packet parses back to its code, identifier and payload |
| PppRuns.SendableIff | src/tunnel/packet.rs:18-31 | all that is queued for an input can itself be sent over TLS exactly when no rejection quotes too long a packet, so always for inputs of at most 65523 bytes |
| PppRuns.LongestUnknownIsTooLong | src/tunnel/ppp_engine.rs:286-292 | the longest packet of an unknown protocol is one whose rejection cannot be sent |
| PppRuns.IdentifierIffAsked | src/tunnel/ppp_engine.rs:266-273 | over every run the engine holds an IPCP identifier exactly when it has queued a request for an address |
| PppRuns.StaysClosed | src/tunnel/ppp_engine.rs:239-248 | without an IPCP identifier a closed link stays closed over every further run |
| PppRuns.ClosedIsFinalIff | src/tunnel/ppp_engine.rs:178-187 | a run that closed the link is closed over every continuation exactly when it never asked for an address |
| PppRuns.ClosedLinkReopens | src/tunnel/ppp_engine.rs:211-226 | start, LCP acknowledgement, termination: closed; then the acknowledgement of the address request: open |
| PppHistory.CodeNumbers | src/tunnel/ppp_engine.rs:11-20 | the ten codes are 1 to 10 in their order, and every other number is unknown |
| PppHistory.PacketLayout | src/tunnel/ppp_engine.rs:94-104 | for every packet, from its bytes: the protocol, and for a control packet the code, identifier, length and options, or that it is malformed |
| PppHistory.SentLayout | src/tunnel/ppp_engine.rs:275-284 | the bytes of a control packet that is queued |
| PppHistory.EchoKeepsData | src/tunnel/ppp_engine.rs:171-178 | an echo reply has zeros for the magic number and then the data as it came |
| PppHistory.AddressIsInIpcp | src/tunnel/packet.rs:68-99 | the address callback looks into exactly the packets that the engine takes for IPCP |
| PppHistory.StepIsDecided | src/tunnel/ppp_engine.rs:86-302 | every step sends the reply owed and then what the engine asks for, reports the event owed, and keeps the addresses as the packet says |
| PppHistory.RemembersRequests | src/tunnel/ppp_engine.rs:257-273 | over every run the two identifiers are those of the latest requests among the packets queued |
| PppHistory.EngineIsItsHistory | src/tunnel/ppp_engine.rs:139-255 | over every run the state and all addresses are decided by the packets received, queued and reported: the peer address is that of the last IPCP request received, the wanted one that of the last answered proposal unless rejected since |
| PppHistory.EventsAreOwed | src/tunnel/ppp_engine.rs:94-255 | over every run exactly the owed events are reported, each Up with the granted address and the address of the peer |
| PppHistory.OwnPacketsAreAsked | src/tunnel/ppp_engine.rs:257-302 | over every run the engine's own packets are the requests and rejections due, with their exact content, numbered in order |
| PppConvergence.MoveAdvances | src/tunnel/ppp_engine.rs:139-273 | every delivery and every harmless packet keeps the negotiation on course and decreases the measure |
| PppConvergence.RunAdvances | src/tunnel/ppp_engine.rs:139-273 | a run is no longer than the measure it started with |
| PppConvergence.Converges | src/tunnel/ppp_engine.rs:86-273 | against a peer that acks LCP, naks any other address and acks the offered one, with any finite harmless traffic in any order, every run ends, and with nothing left in flight the link is open with the offered address |
| WriteQueues.WriteQueue.constructor | src/tunnel/forward.rs:186-188 | a new queue has nothing pending |
| WriteQueues.WriteQueue.Push | src/tunnel/forward.rs:190-194 | the bytes join the end of what is pending; the offset stays inside the front chunk |
| WriteQueues.WriteQueue.WriteAvailable | src/tunnel/forward.rs:200-220 | with arbitrary short writes and failures, accepted bytes followed by pending ones never change; a ready sink takes some, and the result is decided by the last write |
| Forward.Forwarder.constructor | src/tunnel/forward.rs:54-60 | the loop's invariant holds at the start |
| Forward.Forwarder.QueueForTls | src/tunnel/forward.rs:124-127 | written and queued bytes are the TLS frames of the packets so far, the statistics their number; only an overlong packet stops it |
| Forward.Forwarder.ReadPtyIntoTlsQueue | src/tunnel/forward.rs:114-134 | all that is readable is read, and the queued packets are those the bytes read stand for; it fails only with the stream, or on bytes that cannot be passed on |
| Forward.Forwarder.NoteAddress | src/tunnel/forward.rs:148-153 | the callback list stays the addresses found so far with consecutive repeats removed |
| Forward.AddressesSnoc | src/tunnel/forward.rs:148-153 | addresses are looked for packet by packet |
| Forward.ChangesAre | src/tunnel/forward.rs:148-153 | the callbacks have no two equal neighbours, and the addresses found are they with repeats |
| Forward.Forwarder.QueueForPty | src/tunnel/forward.rs:147-157 | written and queued bytes are the HDLC frames of the packets so far; the callbacks are their addresses with consecutive repeats removed |
| Forward.Forwarder.ReadTlsIntoPtyQueue | src/tunnel/forward.rs:136-164 | all that is readable is read, and the queued packets are those the bytes read stand for; it fails only with the stream, or where the parser rejects |
| Forward.Forwarder.WritePty | src/tunnel/forward.rs:105-107 | writing to the pty moves bytes from pending to written only, and some if the pty is ready; the result is decided by the last write |
| Forward.Forwarder.WriteTls | src/tunnel/forward.rs:108-110 | likewise towards TLS |
| Forward.Forwarder.ReadRound | src/tunnel/forward.rs:92-104 | the reading half of an iteration; it fails only when a stream ended or failed, or gave what cannot be passed on |
| Forward.Forwarder.WriteRound | src/tunnel/forward.rs:105-110 | the writing half of an iteration; its result is decided by the last writes, the pty first |
| Forward.Forwarder.Round | src/tunnel/forward.rs:89-110 | one iteration serves every direction that poll reported, keeps the invariant of both, and ends in an error only for a named reason |
| Forward.Forwarder.Run | src/tunnel/forward.rs:62-111 | over any poll results, reads and short writes, also when it ends in an error: bytes written then queued are the encodings of the packets queued so far, and these are an initial part of the packets the bytes read stand for, all of them without an error; an error has its reason in the last round |
| Forward.EncodedIsForwardable | src/tunnel/forward.rs:114-134 | no part of a stream of encoded non-empty packets of at most L bytes, 2L + 8 + 4096 <= 65536, is refused on its way to TLS |
| Forward.UpCarries | src/tunnel/forward.rs:114-134 | if the pty carried encoded packets, exactly these are queued for TLS |
| Forward.DownCarries | src/tunnel/forward.rs:136-164 | if TLS carried framed packets, exactly these are queued for the pty |
| Forward.FarEndOfTlsReads | src/tunnel/forward.rs:62-111 | at every moment of the loop the far end of TLS has read, without error, an initial part of the packets queued and of the packets pppd's bytes stand for |
| Forward.PppdDecodes | src/tunnel/forward.rs:62-111 | at every moment of the loop pppd has decoded, without error, an initial part of the packets queued and of the packets that TLS carried |
| PumpQueues.DrainChunk | src/proxy/runtime.rs:776-779 | the chunk and the rest are the queue |
| PumpQueues.PushFrontBytes | src/proxy/runtime.rs:781-785 | the bytes come before the queue, in their order |
| PumpQueues.WriteChunk | src/proxy/runtime.rs:592-612 | one chunk: taken whole, in part, put back or dropped, as the stream's answer decides |
| PumpQueues.WriteOut | src/proxy/runtime.rs:591-613 | taken, dropped and queued bytes are the old queue in order, each as many as the socket and its script decide, and so is how the loop ends |
| PumpQueues.WritingOutcome | src/proxy/runtime.rs:591-613 | all is written in chunks taken whole, or the first write that is not taken whole ends it: short, blocked, nothing taken, or failed with its chunk dropped |
| PumpQueues.DropsIff | src/proxy/runtime.rs:592-612 | bytes are dropped exactly when the stream takes some number of whole chunks and answers the next with a hard failure; they are that one chunk |
| PumpQueues.TakesIffReady | src/proxy/runtime.rs:592-612 | some bytes are taken exactly when the socket is open for writing and the next write takes some |
| PumpQueues.ReadIn | src/proxy/runtime.rs:642-661 | all that is readable joins the queue, and the loop ends as the stream does |
| PumpQueues.IntactIff | src/proxy/runtime.rs:588-688 | with the dropped chunks put back in their places the bytes balance; they are intact exactly when none was dropped |
| PumpQueues.BalanceAfterWrite | src/proxy/runtime.rs:591-613 | a write keeps the balance, with the dropped chunk noted at its place |
| DirectSessions.DirectProxySession.constructor | src/proxy/runtime.rs:272-285 | a new session is balanced |
| DirectSessions.DirectProxySession.MarkClosed | src/proxy/runtime.rs:770-774 | only the first reason is kept |
| DirectSessions.DirectProxySession.DrainToRemote | src/proxy/runtime.rs:591-613 | the queue to the remote is written as far as the stream decides, and only a hard failure of it is noted as a drop |
| DirectSessions.DirectProxySession.WriteToRemote | src/proxy/runtime.rs:591-614 | and the remote is closed exactly when a write failed hard or took nothing |
| DirectSessions.DirectProxySession.DrainToClient | src/proxy/runtime.rs:616-638 | likewise the queue to the client |
| DirectSessions.DirectProxySession.WriteToClient | src/proxy/runtime.rs:616-639 | and the client is closed exactly when a write failed hard or took nothing |
| DirectSessions.DirectProxySession.ReadFromClient | src/proxy/runtime.rs:641-662 | reads only from an open client into an empty queue; the end of the stream shuts the remote for writing at once |
| DirectSessions.DirectProxySession.ReadFromRemote | src/proxy/runtime.rs:664-685 | likewise in the other direction |
| DirectSessions.DirectProxySession.Pump | src/proxy/runtime.rs:590-686 | the session performs one round of the two flows that the theorems are about: queues, bytes, drops, streams, shutdowns and flags; it keeps the first reason to close that the round gives |
| DirectSessions.RoundEffects | src/proxy/runtime.rs:590-686 | what a round does to queue, bytes and flags; it reads the source, meets its end or shuts the sink only if the write emptied the queue and both sides are open |
| DirectSessions.RoundReasonIs | src/proxy/runtime.rs:590-686 | which reason a round gives first: a write to the remote, one to the client, the end of the client, the end of the remote, each by what the stream did |
| DirectSessions.RoundsMirror | src/proxy/runtime.rs:588-688 | the two directions are symmetric: what holds of the one over any rounds holds of the other |
| DirectSessions.RoundKeepsBalance | src/proxy/runtime.rs:588-688 | a round keeps accepted, dropped and queued bytes equal to those read, both ways |
| DirectSessions.LosesIff | src/proxy/runtime.rs:588-688 | over any number of rounds a direction loses bytes exactly when some write of it fails hard |
| DirectSessions.IntactUnlessFailedHard | src/proxy/runtime.rs:588-688 | accepted then queued bytes are those read, byte for byte, exactly when no write of that direction failed hard |
| DirectSessions.PumpRounds | src/proxy/runtime.rs:588-688 | a session pumped any number of times loses bytes of a direction exactly when a write of it failed hard |
| DirectSessions.HalfCloseDropsLastBytes | src/proxy/runtime.rs:641-662 | whatever was queued before, the bytes read in the round that meets the end of the client's stream never reach the remote, over any further rounds; nothing is dropped from then on exactly when there were none |
| DirectSessions.OnlyLastBytesAreLost | src/proxy/runtime.rs:641-662 | over any run without a hard failure up to that round the remote gets all bytes read before it, and those dropped or queued from then on are exactly the bytes of that round |
| DirectSessions.RemoteCloseDropsLastBytes | src/proxy/runtime.rs:664-685 | likewise a download whose last bytes are read in the round that meets the end of the remote's stream |
| DirectSessions.PumpOneOf | src/proxy/runtime.rs:588-590 | a session's round leaves all others as they were |
| DirectSessions.PumpDirectSessions | src/proxy/runtime.rs:588-688 | every session has its own whole round, reads, writes and flags, whatever the others do |
| PumpQueues.WithoutIff | src/proxy/runtime.rs:740-762 | exactly the elements outside the set remain, the others are the removed ones |
| DirectSessions.CleanupDirectSessions | src/proxy/runtime.rs:740-762 | the index loop removes exactly the sessions closed on both sides with nothing queued, keeping the order |
| DirectSessions.OverIffStill | src/proxy/runtime.rs:588-688 | both sides are closed and the queues empty exactly when a round moves nothing, whatever the two streams do |
| DirectSessions.FinishedIffStill | src/proxy/runtime.rs:740-762 | a session is finished for the cleanup exactly in that case |
| DirectSessions.RemovedSessionsDelivered | src/proxy/runtime.rs:740-762 | a session removed after any number of rounds delivered each direction byte for byte exactly when no write of it failed hard in any of them; the counters miss only the dropped bytes, and there is a reason to report |
| ProxiedSessions.TcpSocket.Send | src/proxy/netstack.rs:86-88 | takes a prefix; a short send leaves the buffer full |
| ProxiedSessions.TcpSocket.Recv | src/proxy/netstack.rs:90-96 | first in, first out |
| ProxiedSessions.TcpSocket.Close | src/proxy/netstack.rs:98-100 | a closed socket never sends again |
| ProxiedSessions.TcpSocket.Poll | src/proxy/netstack.rs:66-68 | the network may free buffer, deliver bytes and change the state, but not reopen |
| ProxiedSessions.SendChunk | src/proxy/runtime.rs:481-496 | one chunk: taken whole or in part, or dropped by a failed send that closes the socket |
| ProxiedSessions.SendOut | src/proxy/runtime.rs:480-497 | the loop ends with an empty queue or a socket that takes no more; accepted, dropped and queued bytes balance, also with the free buffer |
| ProxiedSessions.PassOn | src/proxy/runtime.rs:507-521 | of bytes just read a short send leaves the rest and a full buffer, a failed one drops them and closes the socket |
| ProxiedSessions.ForwardOne | src/proxy/runtime.rs:500-527 | one read, and what it gave sent |
| ProxiedSessions.ReadAndSend | src/proxy/runtime.rs:499-528 | bytes passed straight on, dropped and left over are the bytes read; it stops with the socket full or shut or the client drained |
| ProxiedSessions.WriteAll | src/proxy/socks5.rs:40-47 | how many bytes are taken and what is left of the stream's script is decided by that script; it succeeds exactly when all were |
| ProxiedSessions.FillingTakes | src/proxy/socks5.rs:40-47 | as many bytes are written as the stream takes before it first blocks, fails or takes nothing |
| ProxiedSessions.ProxySession.constructor | src/proxy/runtime.rs:226-240 | a new session is balanced |
| ProxiedSessions.ProxySession.MarkClosed | src/proxy/runtime.rs:764-768 | only the first reason is kept |
| ProxiedSessions.ProxySession.SendQueued | src/proxy/runtime.rs:480-497 | balance kept; afterwards the queue is empty or the socket takes no more |
| ProxiedSessions.ProxySession.ForwardFromClient | src/proxy/runtime.rs:499-528 | bytes may pass by the queue because the socket takes bytes only when it is empty; the client counts as closed exactly when its stream ended, not when it failed |
| ProxiedSessions.ProxySession.ForwardAndMark | src/proxy/runtime.rs:499-528 | and an end of any kind leaves its reason, if there was none |
| ProxiedSessions.ProxySession.PumpLocalToTcp | src/proxy/runtime.rs:474-529 | accepted bytes then queued ones are those read, in order; a closed client has an empty queue and, if no send failed, all it sent was accepted; nothing moves before the SOCKS reply |
| ProxiedSessions.ProxySession.ReplyIfEstablished | src/proxy/runtime.rs:540-543 | the reply is written once, when the socket is found established, and fails exactly when the client does not take all of it |
| ProxiedSessions.ProxySession.PumpTcpToLocal | src/proxy/runtime.rs:538-583 | the reply and then received and queued payload go out as far as the client's stream decides; only a hard failure drops payload, and the socket is shut exactly when a write failed hard or took nothing; payload before the reply is counted as early |
| ProxiedSessions.ProxySession.ReceiveAll | src/proxy/runtime.rs:545-557 | everything received is counted and queued |
| ProxiedSessions.ProxySession.WriteQueue | src/proxy/runtime.rs:559-582 | of the queue the client's stream decides how much is delivered, dropped by a hard failure, and left |
| ProxiedSessions.ProxySession.WriteToClient | src/proxy/runtime.rs:559-582 | and the socket is shut, with the reason, exactly when a write failed hard or took nothing |
| ProxiedSessions.ReplyPlace | src/proxy/runtime.rs:538-583 | where the client sees the reply: after the payload that came early and before the rest |
| ProxiedSessions.RunRound | src/proxy/runtime.rs:65-67 | what a round leaves, in terms of the queue, the client's stream and the poll beforehand; a client that was allowed to send is read |
| ProxiedSessions.LaterOrNow | src/proxy/runtime.rs:538-583 | payload comes early, or is lost, in this round or as things stand after it |
| ProxiedSessions.RunSession | src/proxy/runtime.rs:65-67 | over any number of rounds and any network: payload comes before the reply exactly when some poll before the first established one meets payload and a client that takes it, and payload is lost exactly when a write that is reached fails hard |
| ProxiedSessions.PayloadWithoutReply | src/proxy/runtime.rs:538-583 | a session whose connection ends before it is seen established gives payload without a reply |
| ProxiedSessions.QueuedForShutSocketStays | src/proxy/runtime.rs:476-497 | over any further rounds the bytes queued for a shut socket stay; the session can be removed exactly when there were none, the socket is inactive and the client has all |
| ProxiedSessions.QueuedForShutSocketIsReached | src/proxy/runtime.rs:474-583 | a short send and then a hard write failure bring a new session there |
| ProxiedSessions.CleanupSessions | src/proxy/runtime.rs:709-738 | exactly the sessions with an inactive socket and empty queues go, whatever their flags; the others stay in order; sessions with an inactive socket are marked |
| ProxiedSessions.MarkedIsReasoned | src/proxy/runtime.rs:709-738 | the cleanup leaves no closed session without a reason |
| ProxiedSessions.RemovedSessionsDelivered | src/proxy/runtime.rs:709-738 | at removal each direction was handed over byte for byte exactly when nothing was dropped on it, and there is a reason to report |
| DnsNames.SkipName | src/proxy/dns.rs:129-158 | the loop computes the skipping function |
| DnsNames.LengthBytes | src/proxy/dns.rs:137-150 | a byte from 192 is a pointer, from 64 reserved, below that a length |
| DnsNames.SkipsWholeName | src/proxy/dns.rs:129-158 | a name, plain or ending in a pointer, is skipped to its very end exactly when it has at most 128 labels |
| DnsNames.SkippedIsName | src/proxy/dns.rs:129-158 | whatever is skipped is a well-formed name of at most 128 labels |
| DnsNames.EncodeName | src/proxy/dns.rs:110-127 | appends the wire form of the labels, or fails when one is empty or too long |
| DnsNames.SplitJoins | src/proxy/dns.rs:111-116 | the labels have no dots and joined by dots are the trimmed name |
| DnsNames.OnlyDotsAreTrimmed | src/proxy/dns.rs:111 | only dots are cut off the end of a name |
| DnsNames.EncodedNameIsSkipped | src/proxy/dns.rs:110-158 | an encoded name is skipped to its very end exactly when it has at most 128 labels |
| DnsNames.SameEncodingSameName | src/proxy/dns.rs:110-127 | two names with the same encoding are the same up to the dots they end in |
| Dns.BuildTcpQuery | src/proxy/dns.rs:9-31 | the framed query with one question for the name, or the label error, or the size error exactly when it does not fit 16 bits |
| Dns.QueryBytes | src/proxy/dns.rs:9-31 | the bytes of a query: length, identifier, 01 00, counts 1 0 0 0, the name, 0 1 0 1 |
| Dns.QueryIsMessage | src/proxy/dns.rs:9-31 | the query is the message with the one question for the name and nothing else |
| Dns.ParseMessage | src/proxy/dns.rs:44-108 | the two counted loops compute the reference parser |
| Dns.FlagBits | src/proxy/dns.rs:54-61 | a response has the first flag bit set, success four zero bits at the end |
| Dns.HeaderDecides | src/proxy/dns.rs:44-65 | length, identifier, response bit and response code are checked in this order, each with its error; whatever is accepted has all four |
| Dns.AddressRecordBytes | src/proxy/dns.rs:84-104 | the bytes of a record of type A: name, 0 1 0 1, time to live, 0 4, address |
| Dns.ParseTcpResponse | src/proxy/dns.rs:33-42 | the framing is taken off before parsing |
| Dns.MessageParses | src/proxy/dns.rs:44-108 | a successful response with any questions, records and further sections yields exactly the four-byte IN A data of its answers, in order |
| Dns.MessageRead | src/proxy/dns.rs:44-108 | whatever is accepted is such a response with the expected identifier, and its addresses are what is returned |
| Dns.FrameIsReadWhole | src/proxy/dns.rs:33-42 | every strict prefix of a frame yields an empty list, every extension what the frame yields |
| Dns.AnswerToQueryIsUnderstood | src/proxy/dns.rs:9-108 | an answer that echoes the question of a query is understood exactly when the name has at most 128 labels, with any bytes behind it |
| Routes.OctetBitsInjective | src/proxy/route_table.rs:91-92 | an octet is determined by its eight tested bits |
| Routes.WordInjective | src/proxy/route_table.rs:58-59 | an address is determined by its 32-bit word |
| Routes.OctetValue | src/proxy/route_table.rs:91-92 | the tested bits of an octet, most significant first, stand for its value |
| Routes.WordValue | src/proxy/route_table.rs:58-59 | the word of an address stands for its 32-bit number |
| Routes.PrefixMaskBits | src/proxy/route_table.rs:75-81 | the mask is that many ones and then zeros, also for 0 and 32 |
| Routes.PrefixMaskValue | src/proxy/route_table.rs:75-81 | the mask of p is the number 2^32 - 2^(32-p) |
| Routes.ScanMeaning | src/proxy/route_table.rs:91-101 | the count and the zero flag characterise the bit strings of ones followed by zeros |
| Routes.MaskIffBits | src/proxy/route_table.rs:83-109 | four octets have the bits of a mask exactly when their 32-bit number is that of the mask |
| Routes.WalkOctet | src/proxy/route_table.rs:91-101 | the inner loop stops exactly when a one follows a zero |
| Routes.Ipv4MaskToPrefix | src/proxy/route_table.rs:83-109 | returns p exactly when there are four octets whose 32-bit number is 2^32 - 2^(32-p) |
| Routes.PlanMaskToPrefix | src/net_plan.rs:168-192 | the other copy of the loop returns p in exactly the same cases |
| Routes.NewNet | src/proxy/route_table.rs:54-61 | the prefix is capped at 32 |
| Routes.ContainsIff | src/proxy/route_table.rs:54-72 | a network contains exactly the addresses with the same masked word, that is the same first bits |
| Routes.ContainsIffSameBlock | src/proxy/route_table.rs:54-72 | in numbers: exactly the addresses of the same block of 2^(32-p) |
| Routes.NetOfRoute | src/proxy/route_table.rs:63-67 | a split route becomes a network with exactly its addresses, or none if it is not well formed |
| Routes.NetsOfRoutes | src/proxy/route_table.rs:17-23 | the networks admit exactly what some well-formed split route admits |
| Routes.HalvesAreEverything | src/proxy/route_table.rs:24-29 | the two halves, like the default route, contain every address |
| Routes.ProxyRouteTable.FromConfig | src/proxy/route_table.rs:12-45 | a destination is routed exactly when routes are set and there are no split routes or one of them admits it |
| TextLines.LinesConcat | src/net_apply.rs:875-888 | a terminated text and what follows it are read line by line independently |
| TextLines.NormalIff | src/net_apply.rs:875-888 | reading and writing lines gives a text back exactly when it is terminated and has no CR LF |
| ResolvConf.NotInIff | src/net_apply.rs:832-842 | the lines to add are those wanted and not there yet |
| ResolvConf.ServerLinesInOrder | src/net_apply.rs:844-848 | one line per server, in the configured order |
| ResolvConf.NotInKeepsOrder | src/net_apply.rs:832-842 | filtering goes part by part, so it keeps order and repeats |
| ResolvConf.LinesToAddInOrder | src/net_apply.rs:832-853 | the lines to add are those of the servers before a server, then its own unless present, then the rest with the search line last |
| ResolvConf.DnsLinesPlainIff | src/net_apply.rs:844-853 | the lines have no break and no carriage return at their end exactly when the configured values have none |
| ResolvConf.PrependDnsLines | src/net_apply.rs:855-863 | the added lines come before the original text |
| ResolvConf.RemoveAddedDnsLines | src/net_apply.rs:875-890 | the loop leaves the lines that the removal keeps, each with a line break |
| ResolvConf.RemovesFirstOccurrences | src/net_apply.rs:875-890 | of each line value exactly the first occurrences go, as many as were added, and the rest keep their order |
| ResolvConf.NothingIsLost | src/net_apply.rs:875-890 | every line is kept or dropped and every added line met or pending, in number and in size |
| ResolvConf.UndoKeepsLinesIff | src/net_apply.rs:855-890 | removing from the prepended file, with anything appended since, leaves the other lines exactly when every added line is plain |
| ResolvConf.UndoRestoresIff | src/net_apply.rs:855-890 | it restores the very text exactly when moreover that text was normal |
| ResolvConf.NothingLeftToAddIff | src/net_apply.rs:832-863 | once added, nothing is left to add exactly when every added line is plain |

## Left out

- TLS, TCP connect, certificates, poll, fcntl, forkpty: streams are oracles with contracts; which descriptors poll reports is an arbitrary input.
- smoltcp: an oracle. A short send means a full transmit buffer, receiving is first in first out, a closed socket does not send again. Its state machine is reduced to what the pumps ask about.
- Shutdown of a socket for writing is taken to succeed; the code ignores its failure.
- Counters: the 64-bit byte counters and the packet statistics are unbounded here.
- Ipv4MaskToPrefix: the 8-bit count wraps, as in a release build; a debug build would panic on 32 or more octets of ones, where the result is None anyway.
- Texts: parsing of octets, addresses and UTF-8. Mask texts are lists of parsed parts, DNS names are byte strings, files are strings.
- Messages: close reasons and errors have fixed texts where the code formats details into them (the operating system's error, the DNS response code, the name).
- PumpTcpToLocal: after a failed SOCKS reply the whole proxy ends, so the session's invariant is not promised then; the outer loops of the two proxied pumps over all sessions are not modelled, those of the direct pump are.
- WriteAll: the retry of interrupted writes.
- Session identifiers, target names, logging, and the connection set-up of sessions.
- `encode_ipv4_packet`, `write_tls_packet`, `is_ip_plus_dns`, `is_end_negotiation`, `estimated_decoded_size`: one-line members.
- DNS: the resolving loop with its timeouts, and the cache.
- The routes of the network plan beyond its copy of the mask loop; applying and rolling back a plan, whose effects are external commands.
- CLI, configuration, HTTP login, portal pages, SAML listener, pppd arguments.
