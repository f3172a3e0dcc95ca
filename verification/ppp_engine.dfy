/**
 * The LCP and IPCP negotiation of the proxy (RFC 1661 sections 4 and 5, RFC 1332 section 3.3): a step function
 * over abstract messages, and the class that performs it on bytes with an outgoing queue.
 */
module Ppp {
  import opened Bytes
  import opened IpcpOptions

  const PROTOCOL_IPV4: nat := 0x0021
  const PROTOCOL_LCP: nat := 0xc021
  const PROTOCOL_IPCP: nat := 0x8021

  datatype Code =
    | ConfigureRequest | ConfigureAck | ConfigureNak | ConfigureReject
    | TerminateRequest | TerminateAck | CodeReject | ProtocolReject
    | EchoRequest | EchoReply | UnknownCode(raw: byte)

  function CodeOf(b: byte): Code {
    if b == 1 then ConfigureRequest
    else if b == 2 then ConfigureAck
    else if b == 3 then ConfigureNak
    else if b == 4 then ConfigureReject
    else if b == 5 then TerminateRequest
    else if b == 6 then TerminateAck
    else if b == 7 then CodeReject
    else if b == 8 then ProtocolReject
    else if b == 9 then EchoRequest
    else if b == 10 then EchoReply
    else UnknownCode(b)
  }

  function CodeByte(c: Code): byte {
    match c
    case ConfigureRequest => 1
    case ConfigureAck => 2
    case ConfigureNak => 3
    case ConfigureReject => 4
    case TerminateRequest => 5
    case TerminateAck => 6
    case CodeReject => 7
    case ProtocolReject => 8
    case EchoRequest => 9
    case EchoReply => 10
    case UnknownCode(raw) => raw
  }

  lemma CodeRoundTrip(c: Code)
    ensures !c.UnknownCode? ==> CodeOf(CodeByte(c)) == c
  {
  }

  datatype LinkState = Initial | LcpRequestSent | LcpOpened | IpcpRequestSent | Opened | Closed

  datatype Event =
    | Up(localIp: Ipv4Addr, peerIp: Option<Ipv4Addr>)
    | Ipv4Packet(payload: seq<byte>)
    | Down

  /** A control packet handed to the outgoing queue. */
  datatype Sent = Sent(protocol: nat, code: Code, identifier: byte, payload: seq<byte>)

  function SentBytes(s: Sent): Packet {
    BeBytes(s.protocol) + ControlBytes(CodeByte(s.code), s.identifier, s.payload)
  }

  function QueueBytes(sent: seq<Sent>): (q: seq<Packet>)
    ensures |q| == |sent|
    ensures forall i :: 0 <= i < |q| ==> q[i] == SentBytes(sent[i])
  {
    seq(|sent|, i requires 0 <= i < |sent| => SentBytes(sent[i]))
  }

  lemma QueueBytesAppend(a: seq<Sent>, b: seq<Sent>)
    ensures QueueBytes(a + b) == QueueBytes(a) + QueueBytes(b)
  {
  }

  /** The engine without its queue. */
  datatype Engine = Engine(
    state: LinkState,
    nextIdentifier: byte,
    lcpIdentifier: Option<byte>,
    ipcpIdentifier: Option<byte>,
    requestedIp: Ipv4Addr,
    localIp: Option<Ipv4Addr>,
    peerIp: Option<Ipv4Addr>)

  const FRESH := Engine(Initial, 1, None, None, UNSPECIFIED, None, None)

  // ---------- What arrives ----------

  datatype Message =
    | Malformed(error: Error)
    | Data(payload: seq<byte>)
    | Lcp(code: Code, control: ControlPacket, payload: seq<byte>)
    | Ipcp(code: Code, control: ControlPacket, payload: seq<byte>)
    | Unsupported(protocol: nat, payload: seq<byte>)

  function ControlMessage(lcp: bool, payload: seq<byte>): Message {
    match ParseControlPacket(payload)
    case Err(e) => Malformed(e)
    case Ok(c) => if lcp then Lcp(CodeOf(c.code), c, payload) else Ipcp(CodeOf(c.code), c, payload)
  }

  function Classify(data: Packet): Message {
    if |data| < 2 then Malformed(HdlcInvalidFrame)
    else
      var protocol := U16(data[0], data[1]);
      if protocol == PROTOCOL_IPV4 then Data(data[2..])
      else if protocol == PROTOCOL_LCP then ControlMessage(true, data[2..])
      else if protocol == PROTOCOL_IPCP then ControlMessage(false, data[2..])
      else Unsupported(protocol, data[2..])
  }

  // ---------- What is sent ----------

  /** Identifiers run through 1..255 and start over; 0 is never used. */
  function After(identifier: byte): byte {
    if identifier + 1 == 0 then 1 else identifier + 1
  }

  const MRU_OPTION: seq<byte> := [1, 4, 0x05, 0x4a]

  function AddressOption(ip: Ipv4Addr): seq<byte> {
    [IP_ADDRESS, 6] + Octets(ip)
  }

  datatype Step = Step(engine: Engine, sent: seq<Sent>, result: Result<seq<Event>>)

  /** A new LCP request supersedes the one before it. */
  function WithLcpRequest(e: Engine, replies: seq<Sent>): Step {
    var id := e.nextIdentifier;
    Step(e.(nextIdentifier := After(id), lcpIdentifier := Some(id)),
         replies + [Sent(PROTOCOL_LCP, ConfigureRequest, id, MRU_OPTION)], Ok([]))
  }

  function WithIpcpRequest(e: Engine): Step {
    var id := e.nextIdentifier;
    Step(e.(nextIdentifier := After(id), ipcpIdentifier := Some(id)),
         [Sent(PROTOCOL_IPCP, ConfigureRequest, id, AddressOption(e.requestedIp))], Ok([]))
  }

  function In(state: LinkState, s: Step): Step {
    s.(engine := s.engine.(state := state))
  }

  function EchoPayload(options: seq<byte>): seq<byte> {
    [0, 0, 0, 0] + (if |options| > 4 then options[4..] else [])
  }

  function StepLcp(e: Engine, code: Code, c: ControlPacket, payload: seq<byte>): Step {
    var reply := (k, p) => Sent(PROTOCOL_LCP, k, c.identifier, p);
    var current := Some(c.identifier) == e.lcpIdentifier;
    match code
    case ConfigureRequest =>
      var ack := [reply(ConfigureAck, c.options)];
      if e.state == Initial then In(LcpRequestSent, WithLcpRequest(e, ack)) else Step(e, ack, Ok([]))
    case ConfigureAck =>
      if !current then Step(e, [reply(CodeReject, payload)], Ok([]))
      else if e.state == LcpRequestSent || e.state == Initial then In(IpcpRequestSent, WithIpcpRequest(e))
      else Step(e, [], Ok([]))
    case ConfigureNak =>
      if current then WithLcpRequest(e, []) else Step(e, [reply(CodeReject, payload)], Ok([]))
    case ConfigureReject =>
      if current then WithLcpRequest(e, []) else Step(e, [reply(CodeReject, payload)], Ok([]))
    case EchoRequest => Step(e, [reply(EchoReply, EchoPayload(c.options))], Ok([]))
    case TerminateRequest => Step(e.(state := Closed), [reply(TerminateAck, c.options)], Ok([Down]))
    case CodeReject => Step(e, [], Ok([]))
    case ProtocolReject => Step(e, [], Ok([]))
    case EchoReply => Step(e, [], Ok([]))
    case TerminateAck => Step(e, [], Ok([]))
    case UnknownCode(_) => Step(e, [reply(CodeReject, payload)], Ok([]))
  }

  function StepIpcp(e: Engine, code: Code, c: ControlPacket, payload: seq<byte>): Step {
    var reply := (k, p) => Sent(PROTOCOL_IPCP, k, c.identifier, p);
    var address := AddressIn(c.options);
    if (code == ConfigureAck || code == ConfigureNak || code == ConfigureReject)
       && Some(c.identifier) != e.ipcpIdentifier
    then Step(e, [reply(CodeReject, payload)], Ok([]))
    else
      match code
      case ConfigureRequest => Step(e.(peerIp := address), [reply(ConfigureAck, c.options)], Ok([]))
      case ConfigureAck =>
        var ip := if address.Some? then address.value else e.requestedIp;
        if ip == UNSPECIFIED then WithIpcpRequest(e)
        else Step(e.(localIp := Some(ip), state := Opened), [], Ok([Up(ip, e.peerIp)]))
      case ConfigureNak => WithIpcpRequest(if address.Some? then e.(requestedIp := address.value) else e)
      case ConfigureReject => WithIpcpRequest(e.(requestedIp := UNSPECIFIED))
      case TerminateRequest => Step(e.(state := Closed), [reply(TerminateAck, c.options)], Ok([Down]))
      case CodeReject => Step(e, [], Ok([]))
      case TerminateAck => Step(e, [], Ok([]))
      case ProtocolReject => Step(e, [reply(CodeReject, payload)], Ok([]))
      case EchoRequest => Step(e, [reply(CodeReject, payload)], Ok([]))
      case EchoReply => Step(e, [reply(CodeReject, payload)], Ok([]))
      case UnknownCode(_) => Step(e, [reply(CodeReject, payload)], Ok([]))
  }

  function StepMessage(e: Engine, m: Message): Step {
    match m
    case Malformed(error) => Step(e, [], Err(error))
    case Data(payload) => Step(e, [], Ok([Ipv4Packet(payload)]))
    case Lcp(code, c, payload) => StepLcp(e, code, c, payload)
    case Ipcp(code, c, payload) => StepIpcp(e, code, c, payload)
    case Unsupported(protocol, payload) =>
      var id := e.nextIdentifier;
      Step(e.(nextIdentifier := After(id)),
           [Sent(PROTOCOL_LCP, ProtocolReject, id, BeBytes(protocol) + payload)], Ok([]))
  }

  function IncomingStep(e: Engine, data: Packet): Step {
    StepMessage(e, Classify(data))
  }

  function StartStep(e: Engine): Step {
    if e.state != Initial then Step(e, [], Ok([])) else In(LcpRequestSent, WithLcpRequest(e, []))
  }

  // ---------- The engine on bytes ----------

  class PppEngine {
    var state: LinkState
    var nextIdentifier: byte
    var lcpIdentifier: Option<byte>
    var ipcpIdentifier: Option<byte>
    var requestedIp: Ipv4Addr
    var localIp: Option<Ipv4Addr>
    var peerIp: Option<Ipv4Addr>
    var outgoing: seq<Packet>

    ghost function View(): Engine
      reads this
    {
      Engine(state, nextIdentifier, lcpIdentifier, ipcpIdentifier, requestedIp, localIp, peerIp)
    }

    /** From `old` the engine took step `s`: new fields, and the step's packets at the end of the queue. */
    twostate predicate Took(s: Step)
      reads this
    {
      View() == s.engine && outgoing == old(outgoing) + QueueBytes(s.sent)
    }

    constructor ()
      ensures View() == FRESH && outgoing == []
    {
      state := Initial;
      nextIdentifier := 1;
      lcpIdentifier := None;
      ipcpIdentifier := None;
      requestedIp := UNSPECIFIED;
      localIp := None;
      peerIp := None;
      outgoing := [];
    }

    method NextIdentifier() returns (id: byte)
      modifies this`nextIdentifier
      ensures id == old(nextIdentifier) && nextIdentifier == After(id)
    {
      id := nextIdentifier;
      nextIdentifier := nextIdentifier + 1;
      if nextIdentifier == 0 {
        nextIdentifier := 1;
      }
    }

    method QueueControl(protocol: nat, code: Code, identifier: byte, payload: seq<byte>)
      modifies this`outgoing
      ensures outgoing == old(outgoing) + QueueBytes([Sent(protocol, code, identifier, payload)])
    {
      hide CodeByte, BeBytes;
      var data := BeBytes(protocol);
      data := data + [CodeByte(code)];
      data := data + [identifier];
      data := data + BeBytes(PPP_CONTROL_HEADER_LEN + |payload|);
      data := data + payload;
      assert data == SentBytes(Sent(protocol, code, identifier, payload));
      outgoing := outgoing + [data];
    }

    method SendLcpConfigureRequest()
      modifies this
      ensures Took(WithLcpRequest(old(View()), []))
    {
      hide QueueBytes, After;
      var identifier := NextIdentifier();
      lcpIdentifier := Some(identifier);
      QueueControl(PROTOCOL_LCP, ConfigureRequest, identifier, MRU_OPTION);
      assert [] + [Sent(PROTOCOL_LCP, ConfigureRequest, identifier, MRU_OPTION)]
          == [Sent(PROTOCOL_LCP, ConfigureRequest, identifier, MRU_OPTION)];
    }

    method SendIpcpConfigureRequest()
      modifies this
      ensures Took(WithIpcpRequest(old(View())))
    {
      hide QueueBytes, After;
      var identifier := NextIdentifier();
      ipcpIdentifier := Some(identifier);
      QueueControl(PROTOCOL_IPCP, ConfigureRequest, identifier, AddressOption(requestedIp));
    }

    method QueueProtocolReject(protocol: nat, payload: seq<byte>)
      modifies this
      ensures Took(StepMessage(old(View()), Unsupported(protocol, payload)))
    {
      hide QueueBytes, After, BeBytes;
      var identifier := NextIdentifier();
      QueueControl(PROTOCOL_LCP, ProtocolReject, identifier, BeBytes(protocol) + payload);
    }

    method Start()
      modifies this
      ensures Took(StartStep(old(View())))
    {
      hide QueueBytes, After;
      if state != Initial {
        NothingQueued(outgoing);
        return;
      }
      SendLcpConfigureRequest();
      state := LcpRequestSent;
    }

    method HandleLcp(payload: seq<byte>) returns (result: Result<seq<Event>>)
      modifies this
      ensures
        var s := StepMessage(old(View()), ControlMessage(true, payload));
        Took(s) && result == s.result
    {
      hide QueueBytes, After, ParseControlPacket, CodeOf, EchoPayload;
      NothingQueued(outgoing);
      var parsed := ParseControlPacket(payload);
      if parsed.Err? {
        return Err(parsed.error);
      }
      var packet := parsed.value;
      var code := CodeOf(packet.code);
      if code == ConfigureRequest {
        QueueControl(PROTOCOL_LCP, ConfigureAck, packet.identifier, packet.options);
        if state == Initial {
          AckThenRequest(old(outgoing), View(), Sent(PROTOCOL_LCP, ConfigureAck, packet.identifier, packet.options));
          SendLcpConfigureRequest();
          state := LcpRequestSent;
        }
        return Ok([]);
      } else if code == ConfigureAck && Some(packet.identifier) == lcpIdentifier {
        if state == LcpRequestSent || state == Initial {
          state := LcpOpened;
          SendIpcpConfigureRequest();
          state := IpcpRequestSent;
        }
        return Ok([]);
      } else if (code == ConfigureNak || code == ConfigureReject) && Some(packet.identifier) == lcpIdentifier {
        SendLcpConfigureRequest();
        return Ok([]);
      } else if code == EchoRequest {
        var reply := [0, 0, 0, 0];
        if |packet.options| > 4 {
          reply := reply + packet.options[4..];
        }
        EchoPayloadIs(packet.options, reply);
        QueueControl(PROTOCOL_LCP, EchoReply, packet.identifier, reply);
        return Ok([]);
      } else if code == TerminateRequest {
        QueueControl(PROTOCOL_LCP, TerminateAck, packet.identifier, packet.options);
        state := Closed;
        return Ok([Down]);
      } else if code == CodeReject || code == ProtocolReject || code == EchoReply || code == TerminateAck {
        return Ok([]);
      } else {
        QueueControl(PROTOCOL_LCP, CodeReject, packet.identifier, payload);
        return Ok([]);
      }
    }

    method HandleIpcp(payload: seq<byte>) returns (result: Result<seq<Event>>)
      modifies this
      ensures
        var s := StepMessage(old(View()), ControlMessage(false, payload));
        Took(s) && result == s.result
    {
      hide QueueBytes, After, ParseControlPacket, CodeOf, AddressIn;
      NothingQueued(outgoing);
      var parsed := ParseControlPacket(payload);
      if parsed.Err? {
        return Err(parsed.error);
      }
      var packet := parsed.value;
      var code := CodeOf(packet.code);
      if code == ConfigureRequest {
        var address := ParseIpcpIpAddress(packet.options);
        peerIp := address;
        QueueControl(PROTOCOL_IPCP, ConfigureAck, packet.identifier, packet.options);
        return Ok([]);
      } else if code == ConfigureAck && Some(packet.identifier) == ipcpIdentifier {
        var address := ParseIpcpIpAddress(packet.options);
        var acknowledgedIp := if address.Some? then address.value else requestedIp;
        if acknowledgedIp != UNSPECIFIED {
          localIp := Some(acknowledgedIp);
          state := Opened;
          return Ok([Up(acknowledgedIp, peerIp)]);
        } else {
          SendIpcpConfigureRequest();
          return Ok([]);
        }
      } else if code == ConfigureNak && Some(packet.identifier) == ipcpIdentifier {
        var address := ParseIpcpIpAddress(packet.options);
        if address.Some? {
          requestedIp := address.value;
        }
        SendIpcpConfigureRequest();
        return Ok([]);
      } else if code == ConfigureReject && Some(packet.identifier) == ipcpIdentifier {
        requestedIp := UNSPECIFIED;
        SendIpcpConfigureRequest();
        return Ok([]);
      } else if code == TerminateRequest {
        QueueControl(PROTOCOL_IPCP, TerminateAck, packet.identifier, packet.options);
        state := Closed;
        return Ok([Down]);
      } else if code == CodeReject || code == TerminateAck {
        return Ok([]);
      } else {
        QueueControl(PROTOCOL_IPCP, CodeReject, packet.identifier, payload);
        return Ok([]);
      }
    }

    method HandleIncoming(data: Packet) returns (result: Result<seq<Event>>)
      modifies this
      ensures
        var s := IncomingStep(old(View()), data);
        Took(s) && result == s.result
    {
      hide QueueBytes, U16, StepLcp, StepIpcp, ControlMessage;
      NothingQueued(outgoing);
      if |data| < 2 {
        return Err(HdlcInvalidFrame);
      }
      var protocol := U16(data[0], data[1]);
      if protocol == PROTOCOL_IPV4 {
        return Ok([Ipv4Packet(data[2..])]);
      } else if protocol == PROTOCOL_LCP {
        result := HandleLcp(data[2..]);
      } else if protocol == PROTOCOL_IPCP {
        result := HandleIpcp(data[2..]);
      } else {
        QueueProtocolReject(protocol, data[2..]);
        return Ok([]);
      }
    }

    method NextOutgoing() returns (packet: Option<Packet>)
      modifies this`outgoing
      ensures old(outgoing) == [] ==> packet == None && outgoing == []
      ensures old(outgoing) != [] ==> packet.Some? && [packet.value] + outgoing == old(outgoing)
    {
      if outgoing == [] {
        return None;
      }
      packet := Some(outgoing[0]);
      outgoing := outgoing[1..];
    }

    predicate IsOpen()
      reads this
    {
      state == Opened
    }
  }

  lemma NothingQueued(q: seq<Packet>)
    ensures q + QueueBytes([]) == q
  {
  }

  lemma AckThenRequest(q: seq<Packet>, e: Engine, ack: Sent)
    ensures q + QueueBytes([ack]) + QueueBytes(WithLcpRequest(e, []).sent)
            == q + QueueBytes(WithLcpRequest(e, [ack]).sent)
  {
    hide QueueBytes, After;
    var request := WithLcpRequest(e, []).sent;
    AppendAssoc(q, QueueBytes([ack]), QueueBytes(request));
    QueueBytesAppend([ack], request);
    assert [ack] + request == WithLcpRequest(e, [ack]).sent;
  }

  lemma EchoPayloadIs(options: seq<byte>, reply: seq<byte>)
    requires reply == if |options| > 4 then [0, 0, 0, 0] + options[4..] else [0, 0, 0, 0]
    ensures reply == EchoPayload(options)
  {
  }

  // ---------- Reading back what was sent ----------

  /** A queued LCP or IPCP packet is classified by a receiver as exactly the message it was built from. */
  lemma ClassifySent(s: Sent)
    requires s.protocol == PROTOCOL_LCP || s.protocol == PROTOCOL_IPCP
    requires !s.code.UnknownCode? && PPP_CONTROL_HEADER_LEN + |s.payload| <= 0xffff
    ensures
      var c := ControlPacket(CodeByte(s.code), s.identifier, s.payload);
      var payload := ControlBytes(CodeByte(s.code), s.identifier, s.payload);
      Classify(SentBytes(s)) == if s.protocol == PROTOCOL_LCP then Lcp(s.code, c, payload) else Ipcp(s.code, c, payload)
  {
    hide U16, BeBytes, CodeByte, CodeOf, ParseControlPacket;
    var payload := ControlBytes(CodeByte(s.code), s.identifier, s.payload);
    var p := BeBytes(s.protocol);
    var data := SentBytes(s);
    assert data[0] == p[0] && data[1] == p[1] && data[2..] == payload;
    assert payload + [] == payload;
    ControlRoundTrip(CodeByte(s.code), s.identifier, s.payload, []);
    CodeRoundTrip(s.code);
  }

  lemma AddressOptionRoundTrip(ip: Ipv4Addr)
    ensures AddressIn(AddressOption(ip)) == Some(ip)
  {
    hide AddressIn;
    ListStep(AddressOption(ip));
  }
}
