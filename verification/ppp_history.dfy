/**
 * The PPP engine is its history: what it stores, sends and reports over any run is decided by the packets it
 * received and those it sent, without looking at its fields.
 */
module PppHistory {
  import opened Bytes
  import opened IpcpOptions
  import opened Packets
  import opened Ppp
  import opened PppRuns

  // ---------- Packets as bytes ----------

  const NUMBERED: seq<Code> := [
    ConfigureRequest, ConfigureAck, ConfigureNak, ConfigureReject, TerminateRequest, TerminateAck, CodeReject,
    ProtocolReject, EchoRequest, EchoReply]

  /** The codes of RFC 1661 section 5 are 1 to 10, and there are no others. */
  lemma CodeNumbers(i: nat)
    ensures i < 10 ==> CodeOf(ByteFor(i + 1)) == NUMBERED[i] && CodeByte(NUMBERED[i]) == ByteFor(i + 1)
    ensures forall b: byte :: CodeOf(b) == UnknownCode(b) <==> b as int == 0 || b as int > 10
  {
  }

  function ByteFor(n: nat): byte {
    if n < 256 then n as byte else 0
  }

  /** Protocol, code, identifier and 16-bit length, all big-endian; the length may leave padding but no gap. */
  lemma PacketLayout(data: Packet)
    ensures |data| < 2 ==> Classify(data) == Malformed(HdlcInvalidFrame)
    ensures |data| >= 2 && data[..2] == [0x00, 0x21] ==> Classify(data) == Data(data[2..])
    ensures |data| >= 2 && (data[..2] == [0xc0, 0x21] || data[..2] == [0x80, 0x21]) ==>
              if |data| < 6 then Classify(data) == Malformed(HdlcInvalidFrame)
              else
                var length := 256 * data[4] as int + data[5] as int;
                if length < 4 || |data| < 2 + length then Classify(data) == Malformed(HdlcInvalidFrame)
                else
                  var c := ControlPacket(data[2], data[3], data[6..2 + length]);
                  Classify(data) == if data[0] == 0xc0 then Lcp(CodeOf(data[2]), c, data[2..])
                                    else Ipcp(CodeOf(data[2]), c, data[2..])
    ensures |data| >= 2 && data[..2] !in {[0x00, 0x21], [0xc0, 0x21], [0x80, 0x21]} ==>
              Classify(data) == Unsupported(256 * data[0] as int + data[1] as int, data[2..])
  {
    hide CodeOf, U16, ControlMessage;
    if |data| >= 2 {
      assert data[..2] == [data[0], data[1]];
      ProtocolBytes(data[0], data[1]);
      ControlLayout(true, data[2..]);
      ControlLayout(false, data[2..]);
      if |data| >= 6 {
        FieldOf(data[4], data[5]);
        assert forall n :: 4 <= n <= |data| - 2 ==> data[2..][4..n] == data[6..2 + n];
      }
      FieldOf(data[0], data[1]);
    }
  }

  lemma FieldOf(hi: byte, lo: byte)
    ensures U16(hi, lo) == 256 * hi as int + lo as int
  {
  }

  lemma ControlLayout(lcp: bool, p: seq<byte>)
    ensures
      ControlMessage(lcp, p) ==
      if |p| < 4 || U16(p[2], p[3]) < 4 || |p| < U16(p[2], p[3]) then Malformed(HdlcInvalidFrame)
      else
        var c := ControlPacket(p[0], p[1], p[4..U16(p[2], p[3])]);
        if lcp then Lcp(CodeOf(p[0]), c, p) else Ipcp(CodeOf(p[0]), c, p)
  {
    hide CodeOf, U16;
  }

  lemma ProtocolBytes(hi: byte, lo: byte)
    ensures U16(hi, lo) == PROTOCOL_IPV4 <==> hi == 0x00 && lo == 0x21
    ensures U16(hi, lo) == PROTOCOL_LCP <==> hi == 0xc0 && lo == 0x21
    ensures U16(hi, lo) == PROTOCOL_IPCP <==> hi == 0x80 && lo == 0x21
  {
    hide BeBytes;
    BeBytesOfU16(hi, lo);
    BeBytesOfDigits(0x00, 0x21);
    BeBytesOfDigits(0xc0, 0x21);
    BeBytesOfDigits(0x80, 0x21);
  }

  /** The bytes of a control packet that is sent. */
  lemma SentLayout(s: Sent)
    requires s.protocol < 0x1_0000 && 4 + |s.payload| < 0x1_0000
    ensures
      var b, length := SentBytes(s), 4 + |s.payload|;
      && |b| == 2 + length && Field(b[0], b[1], s.protocol)
      && b[2] == CodeByte(s.code) && b[3] == s.identifier
      && Field(b[4], b[5], length) && b[6..] == s.payload
  {
    hide BeBytes, U16, CodeByte, Field, SentBytes;
    FieldBytes(s.protocol);
    FieldBytes(4 + |s.payload|);
    var protocol, length := BeBytes(s.protocol), BeBytes(4 + |s.payload|);
    SentPieces(s, protocol, length);
    SixAndRest(protocol, [CodeByte(s.code), s.identifier], length, s.payload);
  }

  lemma SentPieces(s: Sent, protocol: seq<byte>, length: seq<byte>)
    requires protocol == BeBytes(s.protocol) && length == BeBytes(4 + |s.payload|)
    ensures SentBytes(s) == protocol + ([CodeByte(s.code), s.identifier] + length + s.payload)
  {
    hide BeBytes, U16, CodeByte;
  }

  predicate Field(hi: byte, lo: byte, n: nat) {
    256 * hi as int + lo as int == n
  }

  lemma FieldBytes(n: nat)
    requires n < 0x1_0000
    ensures Field(BeBytes(n)[0], BeBytes(n)[1], n)
  {
    BigEndian(n);
  }

  lemma SixAndRest<T>(a: seq<T>, b: seq<T>, c: seq<T>, rest: seq<T>)
    requires |a| == |b| == |c| == 2
    ensures
      var s := a + (b + c + rest);
      && s[0] == a[0] && s[1] == a[1] && s[2] == b[0] && s[3] == b[1] && s[4] == c[0] && s[5] == c[1]
      && s[6..] == rest
  {
  }

  /** An echo is answered with the peer's data and, in place of its magic number, zero. */
  lemma EchoKeepsData(magic: seq<byte>, data: seq<byte>)
    requires |magic| == 4
    ensures EchoPayload(magic + data) == [0, 0, 0, 0] + data
    ensures forall short: seq<byte> :: |short| <= 4 ==> EchoPayload(short) == [0, 0, 0, 0]
  {
    if data == [] {
      assert EchoPayload(magic + data) == [0, 0, 0, 0] + data;
    }
  }

  /** The forwarding loop looks for an address in exactly the packets that the engine takes for IPCP. */
  lemma AddressIsInIpcp(data: Packet)
    ensures IpcpAddress(data) == if Classify(data).Ipcp? then AddressIn(Classify(data).control.options) else None
  {
    hide CodeOf, U16, AddressIn, ParseControlPacket;
    if |data| >= 2 {
      ProtocolBytes(data[0], data[1]);
      var lcp, ipcp := ControlMessage(true, data[2..]), ControlMessage(false, data[2..]);
      assert !lcp.Ipcp?;
      assert IsIpcp(data) <==> U16(data[0], data[1]) == PROTOCOL_IPCP;
      assert IsIpcp(data) ==> Classify(data) == ipcp;
      assert Classify(data).Ipcp? ==> IsIpcp(data);
    }
  }

  // ---------- What the engine asks for ----------

  /** The packets that the engine sends of its own accord. */
  datatype Ask = LcpRequest | IpcpRequest(ip: Ipv4Addr) | Rejection(protocol: nat, payload: seq<byte>)

  /** A request for a maximum receive unit of 1354 bytes, one for an address, or a rejected packet as it came. */
  function PacketOf(ask: Ask, identifier: byte): Sent {
    match ask
    case LcpRequest => Sent(0xc021, ConfigureRequest, identifier, [1, 4] + BeBytes(1354))
    case IpcpRequest(ip) => Sent(0x8021, ConfigureRequest, identifier, [3, 6, ip.a, ip.b, ip.c, ip.d])
    case Rejection(protocol, payload) => Sent(0xc021, ProtocolReject, identifier, BeBytes(protocol) + payload)
  }

  function Acknowledged(c: ControlPacket, wanted: Ipv4Addr): Ipv4Addr {
    if AddressIn(c.options).Some? then AddressIn(c.options).value else wanted
  }

  predicate Current(identifier: Option<byte>, c: ControlPacket) {
    identifier == Some(c.identifier)
  }

  /** The address to ask for, after a message: a Nak proposes one and a Reject forbids the option. */
  function WantedAfter(wanted: Ipv4Addr, ipcp: Option<byte>, m: Message): Ipv4Addr {
    if m.Ipcp? && Current(ipcp, m.control) && m.code == ConfigureNak then Acknowledged(m.control, wanted)
    else if m.Ipcp? && Current(ipcp, m.control) && m.code == ConfigureReject then Ipv4Addr(0, 0, 0, 0)
    else wanted
  }

  function PeerAfter(peer: Option<Ipv4Addr>, m: Message): Option<Ipv4Addr> {
    if m.Ipcp? && m.code == ConfigureRequest then AddressIn(m.control.options) else peer
  }

  function AskedFor(state: LinkState, lcp: Option<byte>, ipcp: Option<byte>, wanted: Ipv4Addr, m: Message)
    : Option<Ask>
  {
    match m
    case Malformed(_) => None
    case Data(_) => None
    case Unsupported(protocol, payload) => Some(Rejection(protocol, payload))
    case Lcp(code, c, _) =>
      if code == ConfigureRequest && state == Initial then Some(LcpRequest)
      else if code == ConfigureAck && Current(lcp, c) && state == LcpRequestSent then Some(IpcpRequest(wanted))
      else if (code == ConfigureNak || code == ConfigureReject) && Current(lcp, c) then Some(LcpRequest)
      else None
    case Ipcp(code, c, _) =>
      if !Answers(code) || !Current(ipcp, c) then None
      else if code != ConfigureAck then Some(IpcpRequest(WantedAfter(wanted, ipcp, m)))
      else if Acknowledged(c, wanted) == Ipv4Addr(0, 0, 0, 0) then Some(IpcpRequest(wanted))
      else None
  }

  function Asked(e: Engine, a: Action): Option<Ask> {
    match a
    case Begin => if e.state == Initial then Some(LcpRequest) else None
    case Receive(data) => AskedFor(e.state, e.lcpIdentifier, e.ipcpIdentifier, e.requestedIp, Classify(data))
  }

  function AsSent(ask: Option<Ask>, identifier: byte): seq<Sent> {
    if ask.Some? then [PacketOf(ask.value, identifier)] else []
  }

  /** What a message makes the engine report. */
  function Reported(ipcp: Option<byte>, wanted: Ipv4Addr, peer: Option<Ipv4Addr>, m: Message): seq<Event> {
    match m
    case Malformed(_) => []
    case Unsupported(_, _) => []
    case Data(payload) => [Ipv4Packet(payload)]
    case Lcp(code, _, _) => if code == TerminateRequest then [Down] else []
    case Ipcp(code, c, _) =>
      if code == TerminateRequest then [Down]
      else if code == ConfigureAck && Current(ipcp, c) && Acknowledged(c, wanted) != Ipv4Addr(0, 0, 0, 0) then
        [Up(Acknowledged(c, wanted), peer)]
      else []
  }

  function Reports(e: Engine, a: Action): seq<Event> {
    match a
    case Begin => []
    case Receive(data) => Reported(e.ipcpIdentifier, e.requestedIp, e.peerIp, Classify(data))
  }

  // ---------- One step ----------

  lemma MruOption()
    ensures MRU_OPTION == [1, 4] + BeBytes(1354)
  {
    hide BeBytes;
    BeBytesOfDigits(5, 74);
  }

  lemma AddressOptionBytes(ip: Ipv4Addr)
    ensures AddressOption(ip) == [3, 6, ip.a, ip.b, ip.c, ip.d]
  {
  }

  lemma BothSides<T>(a: seq<T>, b: seq<T>)
    ensures a == [] ==> a + b == b
    ensures b == [] ==> a + b == a
  {
  }

  ghost predicate Sends(e: Engine, m: Message, s: Step) {
    var ask := AskedFor(e.state, e.lcpIdentifier, e.ipcpIdentifier, e.requestedIp, m);
    s.sent == ReplyTo(e.lcpIdentifier, e.ipcpIdentifier, m) + AsSent(ask, e.nextIdentifier)
  }

  ghost predicate Tells(e: Engine, m: Message, s: Step) {
    && s.result == Ok(Reported(e.ipcpIdentifier, e.requestedIp, e.peerIp, m))
    && s.engine.requestedIp == WantedAfter(e.requestedIp, e.ipcpIdentifier, m)
    && s.engine.peerIp == PeerAfter(e.peerIp, m)
  }

  lemma LcpSends(e: Engine, code: Code, c: ControlPacket, payload: seq<byte>)
    requires Invariant(e)
    ensures Sends(e, Lcp(code, c, payload), StepLcp(e, code, c, payload))
  {
    hide After, EchoPayload, BeBytes, AddressOption;
    var m := Lcp(code, c, payload);
    var ask := AskedFor(e.state, e.lcpIdentifier, e.ipcpIdentifier, e.requestedIp, m);
    BothSides(ReplyTo(e.lcpIdentifier, e.ipcpIdentifier, m), AsSent(ask, e.nextIdentifier));
    MruOption();
    AddressOptionBytes(e.requestedIp);
    BothSides([], [Sent(PROTOCOL_LCP, ConfigureRequest, e.nextIdentifier, MRU_OPTION)]);
  }

  lemma LcpTells(e: Engine, code: Code, c: ControlPacket, payload: seq<byte>)
    ensures Tells(e, Lcp(code, c, payload), StepLcp(e, code, c, payload))
  {
    hide After, EchoPayload, AddressOption;
  }

  /** To an answer to its request the engine sends at most the next request. */
  lemma AnswerSends(e: Engine, code: Code, c: ControlPacket, payload: seq<byte>)
    requires Answers(code) && Current(e.ipcpIdentifier, c)
    ensures Sends(e, Ipcp(code, c, payload), StepIpcp(e, code, c, payload))
  {
    hide After, AddressIn, AddressOption, BeBytes, Octets;
    var m := Ipcp(code, c, payload);
    var ask := AskedFor(e.state, e.lcpIdentifier, e.ipcpIdentifier, e.requestedIp, m);
    BothSides([], AsSent(ask, e.nextIdentifier));
    AddressOptionBytes(e.requestedIp);
    AddressOptionBytes(WantedAfter(e.requestedIp, e.ipcpIdentifier, m));
  }

  lemma IpcpSends(e: Engine, code: Code, c: ControlPacket, payload: seq<byte>)
    ensures Sends(e, Ipcp(code, c, payload), StepIpcp(e, code, c, payload))
  {
    hide After, AddressIn, AddressOption, BeBytes, WantedAfter, WithIpcpRequest;
    if Answers(code) && Current(e.ipcpIdentifier, c) {
      AnswerSends(e, code, c, payload);
    } else {
      BothSides(ReplyTo(e.lcpIdentifier, e.ipcpIdentifier, Ipcp(code, c, payload)), AsSent(None, e.nextIdentifier));
    }
  }

  lemma IpcpTells(e: Engine, code: Code, c: ControlPacket, payload: seq<byte>)
    ensures Tells(e, Ipcp(code, c, payload), StepIpcp(e, code, c, payload))
  {
    hide After, AddressIn, AddressOption;
  }

  /** A step answers what it received, then asks, and reports and remembers as the received packet says. */
  lemma StepIsDecided(e: Engine, a: Action)
    requires Invariant(e)
    ensures
      var s := Perform(e, a);
      && s.sent == Owed(e, a) + AsSent(Asked(e, a), e.nextIdentifier)
      && (if s.result.Ok? then s.result.value else []) == Reports(e, a)
      && (a.Receive? ==>
            && s.engine.requestedIp == WantedAfter(e.requestedIp, e.ipcpIdentifier, Classify(a.data))
            && s.engine.peerIp == PeerAfter(e.peerIp, Classify(a.data)))
      && (a.Begin? ==> s.engine.requestedIp == e.requestedIp && s.engine.peerIp == e.peerIp)
  {
    hide After, Classify, BeBytes, StepLcp, StepIpcp, ReplyTo, AskedFor, Reported, WantedAfter, PeerAfter;
    MruOption();
    if a.Receive? {
      var m := Classify(a.data);
      if !m.Lcp? && !m.Ipcp? {
        StepOfOthers(e, m);
      }
      match Classify(a.data) {
        case Malformed(_) =>
        case Data(_) =>
        case Lcp(code, c, payload) =>
          LcpSends(e, code, c, payload);
          LcpTells(e, code, c, payload);
        case Ipcp(code, c, payload) =>
          IpcpSends(e, code, c, payload);
          IpcpTells(e, code, c, payload);
        case Unsupported(_, _) =>
      }
    } else {
      BothSides([], AsSent(Asked(e, a), e.nextIdentifier));
    }
  }

  lemma StepOfOthers(e: Engine, m: Message)
    requires m.Malformed? || m.Data? || m.Unsupported?
    ensures Sends(e, m, StepMessage(e, m))
    ensures m.Malformed? || Tells(e, m, StepMessage(e, m))
    ensures m.Malformed? ==> StepMessage(e, m) == Step(e, [], Err(m.error))
    ensures m.Malformed? ==> Reported(e.ipcpIdentifier, e.requestedIp, e.peerIp, m) == []
    ensures m.Malformed? ==> WantedAfter(e.requestedIp, e.ipcpIdentifier, m) == e.requestedIp
    ensures m.Malformed? ==> PeerAfter(e.peerIp, m) == e.peerIp
  {
    hide After, BeBytes;
  }

  // ---------- Whole runs ----------

  /** The identifier of the latest request of a protocol among the packets sent. */
  function LastRequest(sent: seq<Sent>, protocol: nat): Option<byte> {
    if sent == [] then None
    else
      var last := sent[|sent| - 1];
      if last.protocol == protocol && last.code == ConfigureRequest then Some(last.identifier)
      else LastRequest(sent[..|sent| - 1], protocol)
  }

  /** The state, from what was reported and, before the first report, from what was asked for. */
  function StateOf(sent: seq<Sent>, events: seq<Event>): LinkState {
    match LastLinkEvent(events)
    case Some(Up(_, _)) => Opened
    case Some(Down) => Closed
    case Some(Ipv4Packet(_)) => Initial
    case None =>
      if LastRequest(sent, 0x8021).Some? then IpcpRequestSent
      else if LastRequest(sent, 0xc021).Some? then LcpRequestSent
      else Initial
  }

  /** The peer's address: the one in its last IPCP request, if it has one. */
  function PeerAddress(actions: seq<Action>): Option<Ipv4Addr> {
    if actions == [] then None
    else
      var before, last := PeerAddress(actions[..|actions| - 1]), actions[|actions| - 1];
      if last.Begin? then before else PeerAfter(before, Classify(last.data))
  }

  /** The address to ask for: the last one that answers to the request of the time proposed, unless forbidden since. */
  function Wanted(actions: seq<Action>): Ipv4Addr {
    if actions == [] then Ipv4Addr(0, 0, 0, 0)
    else
      var init, last := actions[..|actions| - 1], actions[|actions| - 1];
      if last.Begin? then Wanted(init)
      else WantedAfter(Wanted(init), LastRequest(Run(init).sent, 0x8021), Classify(last.data))
  }

  lemma {:induction false} LastRequestConcat(a: seq<Sent>, b: seq<Sent>, protocol: nat)
    ensures LastRequest(a + b, protocol) ==
            if LastRequest(b, protocol).Some? then LastRequest(b, protocol) else LastRequest(a, protocol)
  {
    if b == [] {
      assert a + b == a;
    } else {
      assert (a + b)[..|a + b| - 1] == a + b[..|b| - 1];
      LastRequestConcat(a, b[..|b| - 1], protocol);
    }
  }

  lemma LastOfOne(s: Sent, protocol: nat)
    ensures LastRequest([s], protocol) ==
            if s.protocol == protocol && s.code == ConfigureRequest then Some(s.identifier) else None
    ensures LastRequest([], protocol) == None
  {
    assert [s][..0] == [];
  }

  predicate Requests(ask: Ask, protocol: nat) {
    (ask.LcpRequest? && protocol == 0xc021) || (ask.IpcpRequest? && protocol == 0x8021)
  }

  /** Requests come from asking only, never from answering. */
  lemma LastOfStep(lcp: Option<byte>, ipcp: Option<byte>, m: Message, ask: Option<Ask>, id: byte, protocol: nat)
    ensures LastRequest(ReplyTo(lcp, ipcp, m), protocol) == None
    ensures LastRequest(AsSent(ask, id), protocol) ==
            if ask.Some? && Requests(ask.value, protocol) then Some(id) else None
  {
    hide LastRequest, EchoPayload, BeBytes;
    var reply := ReplyTo(lcp, ipcp, m);
    if reply != [] {
      LastOfOne(reply[0], protocol);
      assert reply == [reply[0]];
    } else {
      LastOfOne(Sent(0, CodeReject, 0, []), protocol);
    }
    if ask.Some? {
      LastOfOne(PacketOf(ask.value, id), protocol);
    }
  }

  /** Whatever is asked for takes the next identifier. */
  ghost predicate Remembers(e: Engine, ask: Option<Ask>, t: Engine) {
    && t.nextIdentifier == (if ask.Some? then After(e.nextIdentifier) else e.nextIdentifier)
    && t.lcpIdentifier == (if ask == Some(LcpRequest) then Some(e.nextIdentifier) else e.lcpIdentifier)
    && t.ipcpIdentifier ==
       if ask.Some? && ask.value.IpcpRequest? then Some(e.nextIdentifier) else e.ipcpIdentifier
  }

  lemma LcpRemembers(e: Engine, code: Code, c: ControlPacket, payload: seq<byte>)
    requires Invariant(e)
    ensures
      var ask := AskedFor(e.state, e.lcpIdentifier, e.ipcpIdentifier, e.requestedIp, Lcp(code, c, payload));
      Remembers(e, ask, StepLcp(e, code, c, payload).engine)
  {
    hide After, EchoPayload, AddressOption;
  }

  lemma IpcpRemembers(e: Engine, code: Code, c: ControlPacket, payload: seq<byte>)
    ensures
      var ask := AskedFor(e.state, e.lcpIdentifier, e.ipcpIdentifier, e.requestedIp, Ipcp(code, c, payload));
      Remembers(e, ask, StepIpcp(e, code, c, payload).engine)
  {
    hide After, AddressIn, AddressOption;
  }

  lemma StepRemembers(e: Engine, a: Action)
    requires Invariant(e)
    ensures Remembers(e, Asked(e, a), Perform(e, a).engine)
  {
    hide After, Classify, StepLcp, StepIpcp, WantedAfter;
    if a.Receive? {
      match Classify(a.data) {
        case Malformed(_) =>
        case Data(_) =>
        case Lcp(code, c, payload) => LcpRemembers(e, code, c, payload);
        case Ipcp(code, c, payload) => IpcpRemembers(e, code, c, payload);
        case Unsupported(_, _) =>
      }
    }
  }

  /** The identifiers an engine goes by are those of its latest requests. */
  lemma {:induction false} RemembersRequests(actions: seq<Action>)
    ensures Run(actions).engine.lcpIdentifier == LastRequest(Run(actions).sent, 0xc021)
    ensures Run(actions).engine.ipcpIdentifier == LastRequest(Run(actions).sent, 0x8021)
  {
    if actions != [] {
      hide Perform, LastRequest, Asked, Owed, AsSent, Invariant;
      var n := |actions| - 1;
      var t, a := Run(actions[..n]), actions[n];
      var e := t.engine;
      RemembersRequests(actions[..n]);
      InvariantHolds(actions[..n]);
      StepIsDecided(e, a);
      StepRemembers(e, a);
      LastRequestOfStep(e, a, 0xc021);
      LastRequestOfStep(e, a, 0x8021);
      LastRequestConcat(t.sent, Perform(e, a).sent, 0xc021);
      LastRequestConcat(t.sent, Perform(e, a).sent, 0x8021);
    }
  }

  lemma LastRequestOfStep(e: Engine, a: Action, protocol: nat)
    ensures LastRequest(Owed(e, a) + AsSent(Asked(e, a), e.nextIdentifier), protocol) ==
            if Asked(e, a).Some? && Requests(Asked(e, a).value, protocol) then Some(e.nextIdentifier) else None
  {
    hide LastRequest, Asked, AsSent, ReplyTo, Classify;
    var m := if a.Begin? then Malformed(HdlcInvalidFrame) else Classify(a.data);
    NoReplyToMalformed(e.lcpIdentifier, e.ipcpIdentifier);
    LastOfStep(e.lcpIdentifier, e.ipcpIdentifier, m, Asked(e, a), e.nextIdentifier, protocol);
    LastRequestConcat(Owed(e, a), AsSent(Asked(e, a), e.nextIdentifier), protocol);
  }

  lemma NoReplyToMalformed(lcp: Option<byte>, ipcp: Option<byte>)
    ensures ReplyTo(lcp, ipcp, Malformed(HdlcInvalidFrame)) == []
  {
  }

  lemma {:induction false} LastLinkEventIsNoData(events: seq<Event>)
    ensures LastLinkEvent(events).Some? ==> !LastLinkEvent(events).value.Ipv4Packet?
  {
    if events != [] {
      LastLinkEventIsNoData(events[..|events| - 1]);
    }
  }

  lemma {:induction false} AddressesAreHistory(actions: seq<Action>)
    ensures Run(actions).engine.requestedIp == Wanted(actions)
    ensures Run(actions).engine.peerIp == PeerAddress(actions)
  {
    if actions != [] {
      hide Perform, LastRequest, Asked, Owed, AsSent, Invariant, Reports, WantedAfter, PeerAfter, Classify;
      var n := |actions| - 1;
      AddressesAreHistory(actions[..n]);
      InvariantHolds(actions[..n]);
      RemembersRequests(actions[..n]);
      StepIsDecided(Run(actions[..n]).engine, actions[n]);
    }
  }

  /**
   * Over every run, what the engine stores is its history: the state follows from what it reported and asked for,
   * the identifiers are those of its latest requests, and its addresses are the last reported one, the one wanted
   * and the one in the peer's last request.
   */
  lemma EngineIsItsHistory(actions: seq<Action>)
    ensures
      var e, t := Run(actions).engine, Run(actions);
      && e.state == StateOf(t.sent, t.events)
      && e.lcpIdentifier == LastRequest(t.sent, 0xc021) && e.ipcpIdentifier == LastRequest(t.sent, 0x8021)
      && e.requestedIp == Wanted(actions) && e.localIp == LastAddress(t.events) && e.peerIp == PeerAddress(actions)
  {
    hide Run, LastRequest, LastLinkEvent, LastAddress;
    InvariantHolds(actions);
    EventHistory(actions);
    RemembersRequests(actions);
    AddressesAreHistory(actions);
    LastLinkEventIsNoData(Run(actions).events);
  }

  /** The events owed to the inputs, in their order. */
  function EventsOwed(actions: seq<Action>): seq<Event> {
    if actions == [] then []
    else
      var init, last := actions[..|actions| - 1], actions[|actions| - 1];
      if last.Begin? then EventsOwed(init)
      else
        EventsOwed(init)
        + Reported(LastRequest(Run(init).sent, 0x8021), Wanted(init), PeerAddress(init), Classify(last.data))
  }

  /**
   * Over every run exactly the owed events are reported: the payload of every IPv4 packet, Down for every
   * termination, and for an acknowledgement of the latest request the address it grants with the peer's.
   */
  lemma {:induction false} EventsAreOwed(actions: seq<Action>)
    ensures Run(actions).events == EventsOwed(actions)
  {
    if actions != [] {
      hide Perform, LastRequest, Asked, Owed, AsSent, Invariant, Reported, Classify, Wanted, PeerAddress;
      var n := |actions| - 1;
      EventsAreOwed(actions[..n]);
      InvariantHolds(actions[..n]);
      EngineIsItsHistory(actions[..n]);
      StepIsDecided(Run(actions[..n]).engine, actions[n]);
      AppendEmpty(EventsOwed(actions[..n]), []);
    }
  }

  /** What the engine asked for of its own accord, in order. */
  function AskHistory(actions: seq<Action>): seq<Ask> {
    if actions == [] then []
    else
      var init, last := actions[..|actions| - 1], actions[|actions| - 1];
      var t := Run(init);
      var state := StateOf(t.sent, t.events);
      var ask :=
        if last.Begin? then (if state == Initial then Some(LcpRequest) else None)
        else
          AskedFor(state, LastRequest(t.sent, 0xc021), LastRequest(t.sent, 0x8021), Wanted(init), Classify(last.data));
      AskHistory(init) + if ask.Some? then [ask.value] else []
  }

  function Numbered(asks: seq<Ask>): seq<Sent> {
    if asks == [] then []
    else Numbered(asks[..|asks| - 1]) + [PacketOf(asks[|asks| - 1], IdentifierAt(|asks| - 1))]
  }

  function Own(sent: seq<Sent>): seq<Sent> {
    if sent == [] then []
    else Own(sent[..|sent| - 1]) + if IsOwn(sent[|sent| - 1]) then [sent[|sent| - 1]] else []
  }

  lemma {:induction false} OwnConcat(a: seq<Sent>, b: seq<Sent>)
    ensures Own(a + b) == Own(a) + Own(b)
  {
    hide IsOwn;
    if b == [] {
      assert a + b == a;
    } else {
      assert (a + b)[..|a + b| - 1] == a + b[..|b| - 1];
      OwnConcat(a, b[..|b| - 1]);
    }
  }

  lemma OwnOfStep(e: Engine, a: Action)
    ensures Own(Owed(e, a)) == [] && Own(AsSent(Asked(e, a), e.nextIdentifier)) == AsSent(Asked(e, a), e.nextIdentifier)
  {
    hide Asked, Classify, EchoPayload, BeBytes;
    var owed, asked := Owed(e, a), AsSent(Asked(e, a), e.nextIdentifier);
    if owed != [] {
      assert owed[..0] == [] && Own([]) == [];
    }
    if asked != [] {
      assert asked[..0] == [] && Own([]) == [];
    }
  }

  lemma AskHistoryStep(actions: seq<Action>)
    requires actions != []
    ensures
      var init, last := actions[..|actions| - 1], actions[|actions| - 1];
      var ask := Asked(Run(init).engine, last);
      AskHistory(actions) == AskHistory(init) + if ask.Some? then [ask.value] else []
  {
    hide Run, AskedFor, Classify, Wanted, StateOf, LastRequest;
    EngineIsItsHistory(actions[..|actions| - 1]);
  }

  /** Its own packets are exactly what it had to ask for, in order, numbered 1, 2, ..., 255, 1, ... */
  lemma {:induction false} OwnPacketsAreAsked(actions: seq<Action>)
    ensures Own(Run(actions).sent) == Numbered(AskHistory(actions))
    ensures Run(actions).engine.nextIdentifier == IdentifierAt(|AskHistory(actions)|)
  {
    if actions == [] {
      assert AskHistory(actions) == [] && IdentifierAt(0) == 1;
    } else {
      hide Perform, Invariant, Asked, AskHistory, Numbered, Owed, Own, After;
      var n := |actions| - 1;
      var t, a := Run(actions[..n]), actions[n];
      OwnPacketsAreAsked(actions[..n]);
      InvariantHolds(actions[..n]);
      AskHistoryStep(actions);
      StepIsDecided(t.engine, a);
      StepRemembers(t.engine, a);
      OwnOfStep(t.engine, a);
      OwnConcat(Owed(t.engine, a), AsSent(Asked(t.engine, a), t.engine.nextIdentifier));
      OwnConcat(t.sent, Perform(t.engine, a).sent);
      NumberedSnoc(AskHistory(actions[..n]), Asked(t.engine, a));
    }
  }

  lemma NumberedSnoc(asks: seq<Ask>, ask: Option<Ask>)
    ensures Numbered(asks + if ask.Some? then [ask.value] else []) ==
            Numbered(asks) + AsSent(ask, IdentifierAt(|asks|))
  {
    hide PacketOf;
    if ask.Some? {
      assert (asks + [ask.value])[..|asks|] == asks;
    } else {
      AppendEmpty(asks, []);
      AppendEmpty(Numbered(asks), []);
    }
  }
}
