/** Properties of whole runs of the PPP engine: any start and any packets in any order. */
module PppRuns {
  import opened Bytes
  import opened IpcpOptions
  import opened Packets
  import opened Ppp

  datatype Action = Begin | Receive(data: Packet)

  /** The engine with everything it ever queued and every event it ever reported. */
  datatype Trace = Trace(engine: Engine, sent: seq<Sent>, events: seq<Event>)

  function Perform(e: Engine, a: Action): Step {
    match a
    case Begin => StartStep(e)
    case Receive(data) => IncomingStep(e, data)
  }

  function Extend(t: Trace, s: Step): Trace {
    Trace(s.engine, t.sent + s.sent, t.events + (if s.result.Ok? then s.result.value else []))
  }

  function Run(actions: seq<Action>): Trace {
    if actions == [] then Trace(FRESH, [], [])
    else
      var t := Run(actions[..|actions| - 1]);
      Extend(t, Perform(t.engine, actions[|actions| - 1]))
  }

  /** The engine object goes through the runs: what holds of every trace holds of its fields, queue and events. */
  method Drive(actions: seq<Action>) returns (engine: PppEngine, events: seq<Event>)
    ensures fresh(engine) && engine.View() == Run(actions).engine
    ensures engine.outgoing == QueueBytes(Run(actions).sent) && events == Run(actions).events
  {
    hide QueueBytes, StartStep, IncomingStep;
    engine := new PppEngine();
    events := [];
    NothingQueued([]);
    for i := 0 to |actions|
      invariant fresh(engine) && engine.View() == Run(actions[..i]).engine
      invariant engine.outgoing == QueueBytes(Run(actions[..i]).sent) && events == Run(actions[..i]).events
    {
      assert actions[..i + 1][..i] == actions[..i];
      ghost var t := Run(actions[..i]);
      QueueBytesAppend(t.sent, Perform(t.engine, actions[i]).sent);
      match actions[i]
      case Begin =>
        engine.Start();
        StartReportsNothing(t.engine);
        assert events + [] == events;
      case Receive(data) =>
        var result := engine.HandleIncoming(data);
        assert events + [] == events;
        if result.Ok? {
          events := events + result.value;
        }
    }
    assert actions[..|actions|] == actions;
  }

  lemma StartReportsNothing(e: Engine)
    ensures StartStep(e).result == Ok([])
  {
    hide After;
  }

  // ---------- The inductive invariant ----------

  predicate Invariant(e: Engine) {
    && e.state != LcpOpened
    && (e.state == Initial ==> e.lcpIdentifier.None?)
    && (e.state == Initial || e.state == LcpRequestSent ==> e.ipcpIdentifier.None?)
    && (e.state != Initial && e.state != Closed ==> e.lcpIdentifier.Some?)
    && (e.ipcpIdentifier.Some? ==> e.lcpIdentifier.Some?)
    && (e.state == IpcpRequestSent || e.state == Opened ==> e.ipcpIdentifier.Some?)
    && (e.state == Opened ==> e.localIp.Some?)
    && e.localIp != Some(UNSPECIFIED)
  }

  /** The moves of the link: everything else leaves the state as it is. */
  predicate Moves(from: LinkState, to: LinkState) {
    || from == to || to == Closed
    || (from == Initial && to == LcpRequestSent)
    || (from == LcpRequestSent && to == IpcpRequestSent)
    || (from == IpcpRequestSent && to == Opened)
    || (from == Closed && to == Opened)
  }

  lemma LcpKeepsInvariant(e: Engine, code: Code, c: ControlPacket, payload: seq<byte>)
    requires Invariant(e)
    ensures Invariant(StepLcp(e, code, c, payload).engine)
    ensures Moves(e.state, StepLcp(e, code, c, payload).engine.state)
  {
    hide After, EchoPayload;
  }

  lemma IpcpRequestEffect(e: Engine)
    ensures
      var r := WithIpcpRequest(e).engine;
      r.ipcpIdentifier.Some? && r == e.(nextIdentifier := r.nextIdentifier, ipcpIdentifier := r.ipcpIdentifier)
  {
  }

  lemma IpcpKeepsInvariant(e: Engine, code: Code, c: ControlPacket, payload: seq<byte>)
    requires Invariant(e)
    ensures Invariant(StepIpcp(e, code, c, payload).engine)
    ensures Moves(e.state, StepIpcp(e, code, c, payload).engine.state)
  {
    hide AddressIn, WithIpcpRequest;
    IpcpRequestEffect(e);
    IpcpRequestEffect(if AddressIn(c.options).Some? then e.(requestedIp := AddressIn(c.options).value) else e);
    IpcpRequestEffect(e.(requestedIp := UNSPECIFIED));
  }

  lemma StepKeepsInvariant(e: Engine, a: Action)
    requires Invariant(e)
    ensures Invariant(Perform(e, a).engine)
    ensures Moves(e.state, Perform(e, a).engine.state)
  {
    hide After, Classify, StepLcp, StepIpcp;
    if a.Receive? {
      match Classify(a.data) {
        case Malformed(_) =>
        case Data(_) =>
        case Lcp(code, c, payload) => LcpKeepsInvariant(e, code, c, payload);
        case Ipcp(code, c, payload) => IpcpKeepsInvariant(e, code, c, payload);
        case Unsupported(_, _) =>
      }
    }
  }

  lemma {:induction false} InvariantHolds(actions: seq<Action>)
    ensures Invariant(Run(actions).engine)
  {
    hide Perform, Invariant;
    if actions == [] {
      FreshIsInvariant();
    } else {
      InvariantHolds(actions[..|actions| - 1]);
      StepKeepsInvariant(Run(actions[..|actions| - 1]).engine, actions[|actions| - 1]);
    }
  }

  lemma FreshIsInvariant()
    ensures Invariant(FRESH)
  {
  }

  /** A packet that is refused changes nothing at all. */
  lemma FailureChangesNothing(e: Engine, data: Packet)
    ensures IncomingStep(e, data).result.Err? ==> IncomingStep(e, data).engine == e && IncomingStep(e, data).sent == []
    ensures IncomingStep(e, data).result.Err? <==> Classify(data).Malformed?
  {
    hide Classify, After, AddressIn, EchoPayload;
    match Classify(data) {
      case Malformed(_) =>
      case Data(_) =>
      case Lcp(code, _, _) =>
      case Ipcp(code, _, _) =>
      case Unsupported(_, _) =>
    }
  }

  // ---------- Events decide the link state ----------

  function LastLinkEvent(events: seq<Event>): Option<Event> {
    if events == [] then None
    else if events[|events| - 1].Ipv4Packet? then LastLinkEvent(events[..|events| - 1])
    else Some(events[|events| - 1])
  }

  function LastAddress(events: seq<Event>): Option<Ipv4Addr> {
    if events == [] then None
    else if events[|events| - 1].Up? then Some(events[|events| - 1].localIp)
    else LastAddress(events[..|events| - 1])
  }

  predicate EventsMatch(e: Engine, events: seq<Event>) {
    && (e.state == Opened <==> LastLinkEvent(events).Some? && LastLinkEvent(events).value.Up?)
    && (e.state == Closed <==> LastLinkEvent(events) == Some(Down))
    && e.localIp == LastAddress(events)
  }

  lemma LastOfSnoc(events: seq<Event>, ev: Event)
    ensures LastLinkEvent(events + [ev]) == if ev.Ipv4Packet? then LastLinkEvent(events) else Some(ev)
    ensures LastAddress(events + [ev]) == if ev.Up? then Some(ev.localIp) else LastAddress(events)
  {
    assert (events + [ev])[..|events|] == events;
  }

  /** A step reports at most one event, and what it reports says how the link and its address changed. */
  predicate ReportsChange(e: Engine, s: Step) {
    s.result.Ok? ==>
      || (s.result.value == [] && s.engine.localIp == e.localIp
          && (s.engine.state == Opened <==> e.state == Opened) && (s.engine.state == Closed <==> e.state == Closed))
      || (|s.result.value| == 1 && match s.result.value[0]
          case Ipv4Packet(_) => s.engine == e
          case Up(ip, _) => s.engine.state == Opened && s.engine.localIp == Some(ip)
          case Down => s.engine.state == Closed && s.engine.localIp == e.localIp)
  }

  lemma LcpReportsChange(e: Engine, code: Code, c: ControlPacket, payload: seq<byte>)
    requires Invariant(e)
    ensures ReportsChange(e, StepLcp(e, code, c, payload))
  {
    hide After, EchoPayload;
  }

  lemma IpcpReportsChange(e: Engine, code: Code, c: ControlPacket, payload: seq<byte>)
    requires Invariant(e)
    ensures ReportsChange(e, StepIpcp(e, code, c, payload))
  {
    hide After, AddressIn;
  }

  lemma StepReportsChange(e: Engine, a: Action)
    requires Invariant(e)
    ensures ReportsChange(e, Perform(e, a))
  {
    hide After, Classify, StepLcp, StepIpcp;
    if a.Receive? {
      match Classify(a.data) {
        case Malformed(_) =>
        case Data(_) =>
        case Lcp(code, c, payload) => LcpReportsChange(e, code, c, payload);
        case Ipcp(code, c, payload) => IpcpReportsChange(e, code, c, payload);
        case Unsupported(_, _) =>
      }
    }
  }

  lemma StepMatchesEvents(e: Engine, a: Action, events: seq<Event>)
    requires Invariant(e) && EventsMatch(e, events)
    ensures
      var s := Perform(e, a);
      EventsMatch(s.engine, events + (if s.result.Ok? then s.result.value else []))
  {
    hide Perform, Invariant, LastLinkEvent, LastAddress;
    var s := Perform(e, a);
    StepReportsChange(e, a);
    PerformFailure(e, a);
    if s.result.Err? || s.result.value == [] {
      assert events + [] == events;
    } else {
      LastOfSnoc(events, s.result.value[0]);
      assert s.result.value == [s.result.value[0]];
    }
  }

  /**
   * Over any run the link is open exactly when the last of its Up and Down events is an Up, closed exactly when
   * it is a Down, and the local address is the one of the latest Up.
   */
  lemma {:induction false} EventHistory(actions: seq<Action>)
    ensures EventsMatch(Run(actions).engine, Run(actions).events)
  {
    if actions != [] {
      hide Perform, Invariant, EventsMatch;
      var n := |actions| - 1;
      EventHistory(actions[..n]);
      InvariantHolds(actions[..n]);
      StepMatchesEvents(Run(actions[..n]).engine, actions[n], Run(actions[..n]).events);
    }
  }

  lemma PerformFailure(e: Engine, a: Action)
    ensures Perform(e, a).result.Err? ==> Perform(e, a).engine == e && Perform(e, a).sent == []
  {
    hide Classify, StepMessage, IncomingStep;
    if a.Receive? {
      FailureChangesNothing(e, a.data);
    }
  }

  // ---------- Identifiers ----------

  /** Requests and protocol rejects carry identifiers of the engine's own; replies copy the peer's. */
  predicate IsOwn(s: Sent) {
    s.code == ConfigureRequest || s.code == ProtocolReject
  }

  function OwnIdentifiers(sent: seq<Sent>): seq<byte> {
    if sent == [] then []
    else
      OwnIdentifiers(sent[..|sent| - 1]) + (if IsOwn(sent[|sent| - 1]) then [sent[|sent| - 1].identifier] else [])
  }

  function Replies(sent: seq<Sent>): seq<Sent> {
    if sent == [] then []
    else Replies(sent[..|sent| - 1]) + (if IsOwn(sent[|sent| - 1]) then [] else [sent[|sent| - 1]])
  }

  lemma {:induction false} SplitConcat(a: seq<Sent>, b: seq<Sent>)
    ensures OwnIdentifiers(a + b) == OwnIdentifiers(a) + OwnIdentifiers(b)
    ensures Replies(a + b) == Replies(a) + Replies(b)
  {
    hide IsOwn;
    if b == [] {
      assert a + b == a;
    } else {
      assert (a + b)[..|a + b| - 1] == a + b[..|b| - 1];
      SplitConcat(a, b[..|b| - 1]);
    }
  }

  function IdentifierAt(k: nat): byte {
    if k == 0 then 1 else After(IdentifierAt(k - 1))
  }

  lemma AfterCounts(id: byte)
    ensures After(id) as int == if id as int == 255 then 1 else id as int + 1
  {
    if id as int < 255 {
      IncrementByte(id);
    } else {
      ByteOfIntUnique(255, id);
    }
  }

  /** The identifiers are 1, 2, ..., 255, 1, 2, ... */
  lemma {:induction false} IdentifiersCycle(k: nat)
    ensures IdentifierAt(k) as int == 1 + k % 255
  {
    hide After;
    if k > 0 {
      IdentifiersCycle(k - 1);
      AfterCounts(IdentifierAt(k - 1));
      CycleStep(k);
    }
  }

  lemma CycleStep(k: nat)
    requires k > 0
    ensures k % 255 == if (k - 1) % 255 == 254 then 0 else (k - 1) % 255 + 1
  {
  }

  lemma SplitOne(s: Sent)
    ensures OwnIdentifiers([s]) == if IsOwn(s) then [s.identifier] else []
    ensures Replies([s]) == if IsOwn(s) then [] else [s]
  {
    assert [s][..0] == [];
  }

  ghost predicate AllocatesInOrder(e: Engine, s: Step) {
    || (OwnIdentifiers(s.sent) == [] && s.engine.nextIdentifier == e.nextIdentifier)
    || (OwnIdentifiers(s.sent) == [e.nextIdentifier] && s.engine.nextIdentifier == After(e.nextIdentifier))
  }

  /** The reply owed to a message: one acknowledgement, echo or rejection with the peer's identifier, or none. */
  function ReplyTo(lcpIdentifier: Option<byte>, ipcpIdentifier: Option<byte>, m: Message): seq<Sent> {
    match m
    case Malformed(_) => []
    case Data(_) => []
    case Unsupported(_, _) => []
    case Lcp(code, c, payload) =>
      if code == ConfigureRequest then [Sent(PROTOCOL_LCP, ConfigureAck, c.identifier, c.options)]
      else if code == TerminateRequest then [Sent(PROTOCOL_LCP, TerminateAck, c.identifier, c.options)]
      else if code == EchoRequest then [Sent(PROTOCOL_LCP, EchoReply, c.identifier, EchoPayload(c.options))]
      else if code.UnknownCode? || (Answers(code) && lcpIdentifier != Some(c.identifier)) then
        [Sent(PROTOCOL_LCP, CodeReject, c.identifier, payload)]
      else []
    case Ipcp(code, c, payload) =>
      if code == ConfigureRequest then [Sent(PROTOCOL_IPCP, ConfigureAck, c.identifier, c.options)]
      else if code == TerminateRequest then [Sent(PROTOCOL_IPCP, TerminateAck, c.identifier, c.options)]
      else if code == CodeReject || code == TerminateAck
              || (Answers(code) && ipcpIdentifier == Some(c.identifier)) then []
      else [Sent(PROTOCOL_IPCP, CodeReject, c.identifier, payload)]
  }

  predicate Answers(code: Code) {
    code == ConfigureAck || code == ConfigureNak || code == ConfigureReject
  }

  function Owed(e: Engine, a: Action): seq<Sent> {
    match a
    case Begin => []
    case Receive(data) => ReplyTo(e.lcpIdentifier, e.ipcpIdentifier, Classify(data))
  }

  function ReplyHistory(actions: seq<Action>): seq<Sent> {
    if actions == [] then []
    else
      ReplyHistory(actions[..|actions| - 1])
      + Owed(Run(actions[..|actions| - 1]).engine, actions[|actions| - 1])
  }

  lemma SplitRequestStep(e: Engine, replies: seq<Sent>)
    requires |replies| <= 1 && (replies != [] ==> !IsOwn(replies[0]))
    ensures AllocatesInOrder(e, WithLcpRequest(e, replies)) && Replies(WithLcpRequest(e, replies).sent) == replies
  {
    hide After, OwnIdentifiers, Replies;
    var request := Sent(PROTOCOL_LCP, ConfigureRequest, e.nextIdentifier, MRU_OPTION);
    SplitConcat(replies, [request]);
    SplitOne(request);
    SplitNone();
    if replies != [] {
      SplitOne(replies[0]);
      assert replies == [replies[0]];
    }
  }

  lemma SplitIpcpRequestStep(e: Engine)
    ensures AllocatesInOrder(e, WithIpcpRequest(e)) && Replies(WithIpcpRequest(e).sent) == []
  {
    hide After, OwnIdentifiers, Replies;
    SplitOne(WithIpcpRequest(e).sent[0]);
  }

  lemma LcpSplits(e: Engine, code: Code, c: ControlPacket, payload: seq<byte>)
    ensures
      var s := StepLcp(e, code, c, payload);
      AllocatesInOrder(e, s) && Replies(s.sent) == ReplyTo(e.lcpIdentifier, e.ipcpIdentifier, Lcp(code, c, payload))
  {
    hide EchoPayload, OwnIdentifiers, Replies, WithLcpRequest, WithIpcpRequest, AllocatesInOrder;
    var s := StepLcp(e, code, c, payload);
    SplitNone();
    NothingAllocated(e, s);
    SplitRequestStep(e, []);
    SplitIpcpRequestStep(e);
    SplitRequestStep(e, [Sent(PROTOCOL_LCP, ConfigureAck, c.identifier, c.options)]);
    StateIsIrrelevant(e, s);
    if |s.sent| == 1 {
      SplitOne(s.sent[0]);
      assert s.sent == [s.sent[0]];
    }
  }

  lemma IpcpSplits(e: Engine, code: Code, c: ControlPacket, payload: seq<byte>)
    ensures
      var s := StepIpcp(e, code, c, payload);
      AllocatesInOrder(e, s) && Replies(s.sent) == ReplyTo(e.lcpIdentifier, e.ipcpIdentifier, Ipcp(code, c, payload))
  {
    hide AddressIn, OwnIdentifiers, Replies, After;
    var s := StepIpcp(e, code, c, payload);
    SplitNone();
    SplitIpcpRequestStep(if AddressIn(c.options).Some? then e.(requestedIp := AddressIn(c.options).value) else e);
    SplitIpcpRequestStep(e.(requestedIp := UNSPECIFIED));
    SplitIpcpRequestStep(e);
    if |s.sent| == 1 {
      SplitOne(s.sent[0]);
      assert s.sent == [s.sent[0]];
    }
  }

  lemma NothingAllocated(e: Engine, s: Step)
    ensures OwnIdentifiers(s.sent) == [] && s.engine.nextIdentifier == e.nextIdentifier ==> AllocatesInOrder(e, s)
  {
  }

  lemma StateIsIrrelevant(e: Engine, s: Step)
    ensures forall state :: AllocatesInOrder(e, In(state, WithLcpRequest(e, [])))
                            <==> AllocatesInOrder(e, WithLcpRequest(e, []))
    ensures forall state, r :: AllocatesInOrder(e, In(state, WithLcpRequest(e, r)))
                            <==> AllocatesInOrder(e, WithLcpRequest(e, r))
    ensures forall state :: AllocatesInOrder(e, In(state, WithIpcpRequest(e)))
                            <==> AllocatesInOrder(e, WithIpcpRequest(e))
  {
  }

  lemma StepSplits(e: Engine, a: Action)
    ensures AllocatesInOrder(e, Perform(e, a))
    ensures Replies(Perform(e, a).sent) == Owed(e, a)
  {
    hide After, Classify, BeBytes, OwnIdentifiers, Replies, StepLcp, StepIpcp;
    SplitNone();
    SplitRequestStep(e, []);
    if a.Receive? {
      match Classify(a.data) {
        case Malformed(_) =>
        case Data(_) =>
        case Lcp(code, c, payload) => LcpSplits(e, code, c, payload);
        case Ipcp(code, c, payload) => IpcpSplits(e, code, c, payload);
        case Unsupported(_, _) => SplitOne(Perform(e, a).sent[0]);
      }
    }
  }

  lemma SplitNone()
    ensures OwnIdentifiers([]) == [] && Replies([]) == []
  {
  }

  predicate NumberedFrom(own: seq<byte>, next: byte) {
    && (forall k :: 0 <= k < |own| ==> own[k] == IdentifierAt(k))
    && next == IdentifierAt(|own|)
  }

  lemma NumberedStep(own: seq<byte>, e: Engine, s: Step)
    requires NumberedFrom(own, e.nextIdentifier) && AllocatesInOrder(e, s)
    ensures NumberedFrom(own + OwnIdentifiers(s.sent), s.engine.nextIdentifier)
  {
    hide After, OwnIdentifiers;
    assert own + [] == own;
  }

  /**
   * Everything ever queued is the engine's own requests and protocol rejects, numbered 1, 2, ... in the order
   * they were queued, and the replies, which are the replies owed to the inputs, in order.
   */
  lemma {:induction false} SentHistory(actions: seq<Action>)
    ensures NumberedFrom(OwnIdentifiers(Run(actions).sent), Run(actions).engine.nextIdentifier)
    ensures Replies(Run(actions).sent) == ReplyHistory(actions)
  {
    if actions == [] {
      SplitNone();
    } else {
      hide Perform, OwnIdentifiers, Replies, Owed, NumberedFrom, AllocatesInOrder;
      var n := |actions| - 1;
      var t := Run(actions[..n]);
      var s := Perform(t.engine, actions[n]);
      SentHistory(actions[..n]);
      StepSplits(t.engine, actions[n]);
      SplitConcat(t.sent, s.sent);
      NumberedStep(OwnIdentifiers(t.sent), t.engine, s);
    }
  }

  // ---------- Sizes ----------

  /** How long the payload of a queued packet can be, in terms of the size of the packet that caused it. */
  predicate Measured(s: Sent, size: nat) {
    && (s.protocol == PROTOCOL_LCP || s.protocol == PROTOCOL_IPCP) && !s.code.UnknownCode?
    && (s.code == ProtocolReject ==> |s.payload| == size)
    && (s.code == CodeReject ==> |s.payload| + 2 == size)
    && (s.code != ProtocolReject && s.code != CodeReject ==> |s.payload| <= 6 || |s.payload| + 6 <= size)
  }

  lemma LcpSizes(e: Engine, code: Code, c: ControlPacket, payload: seq<byte>, s: Sent)
    requires |c.options| + 4 <= |payload| && s in StepLcp(e, code, c, payload).sent
    ensures Measured(s, |payload| + 2) && s.code != ProtocolReject
  {
    hide After;
  }

  lemma IpcpSizes(e: Engine, code: Code, c: ControlPacket, payload: seq<byte>, s: Sent)
    requires |c.options| + 4 <= |payload| && s in StepIpcp(e, code, c, payload).sent
    ensures Measured(s, |payload| + 2) && s.code != ProtocolReject
  {
    hide After, AddressIn;
  }

  lemma OptionsAreShorter(payload: seq<byte>)
    ensures ParseControlPacket(payload).Ok? ==> |ParseControlPacket(payload).value.options| + 4 <= |payload|
  {
    hide U16;
  }

  lemma PayloadSizes(e: Engine, data: Packet, s: Sent)
    requires s in IncomingStep(e, data).sent
    ensures Measured(s, |data|) && (s.code == ProtocolReject ==> Classify(data).Unsupported?)
  {
    hide After, U16, CodeOf, ParseControlPacket, StepLcp, StepIpcp, Measured;
    match Classify(data) {
      case Malformed(_) =>
      case Data(_) =>
      case Lcp(code, c, payload) =>
        OptionsAreShorter(payload);
        LcpSizes(e, code, c, payload, s);
      case Ipcp(code, c, payload) =>
        OptionsAreShorter(payload);
        IpcpSizes(e, code, c, payload, s);
      case Unsupported(protocol, payload) =>
        UnsupportedSize(e, protocol, payload, s);
    }
  }

  lemma UnsupportedSize(e: Engine, protocol: nat, payload: seq<byte>, s: Sent)
    requires s in StepMessage(e, Unsupported(protocol, payload)).sent
    ensures Measured(s, |payload| + 2)
  {
    hide After, BeBytes;
  }

  /** For every packet that can arrive over TLS, no length field is truncated: what is queued reads back. */
  lemma SentReadsBack(e: Engine, data: Packet, s: Sent)
    requires |data| <= MAX_DATA && s in IncomingStep(e, data).sent
    ensures
      var c := ControlPacket(CodeByte(s.code), s.identifier, s.payload);
      var m := Classify(SentBytes(s));
      m == if s.protocol == PROTOCOL_LCP then Lcp(s.code, c, SentBytes(s)[2..]) else Ipcp(s.code, c, SentBytes(s)[2..])
  {
    hide IncomingStep, Classify, CodeByte, BeBytes;
    PayloadSizes(e, data, s);
    ClassifySent(s);
    assert SentBytes(s)[2..] == ControlBytes(CodeByte(s.code), s.identifier, s.payload);
  }

  predicate Fits(s: Sent) {
    EncodeForTls(SentBytes(s)).Ok?
  }

  /** The one way out of size: the rejection quotes a packet that left no room for the quote's own headers. */
  predicate RejectionTooLong(e: Engine, data: Packet) {
    var m := Classify(data);
    || (m.Unsupported? && |data| > MAX_DATA - 6)
    || (|data| > MAX_DATA - 4
        && exists s :: s in ReplyTo(e.lcpIdentifier, e.ipcpIdentifier, m) && s.code == CodeReject)
  }

  lemma SizeOfSent(s: Sent)
    ensures |SentBytes(s)| == 6 + |s.payload|
    ensures Fits(s) <==> |s.payload| <= MAX_DATA - 6
  {
    hide CodeByte, BeBytes;
  }

  lemma RejectsAreReplies(sent: seq<Sent>, s: Sent)
    requires s in sent && !IsOwn(s)
    ensures s in Replies(sent)
  {
    hide IsOwn;
    SnocOf(sent);
    if s in sent[..|sent| - 1] {
      RejectsAreReplies(sent[..|sent| - 1], s);
    }
  }

  lemma RepliesAreSent(sent: seq<Sent>, s: Sent)
    requires s in Replies(sent)
    ensures s in sent && !IsOwn(s)
  {
    hide IsOwn;
    SnocOf(sent);
    if s in Replies(sent[..|sent| - 1]) {
      RepliesAreSent(sent[..|sent| - 1], s);
    }
  }

  /** Everything queued in answer to a TLS packet can itself be sent over TLS, exactly when no rejection is too long. */
  lemma SendableIff(e: Engine, data: Packet)
    requires |data| <= MAX_DATA
    ensures (forall s :: s in IncomingStep(e, data).sent ==> Fits(s)) <==> !RejectionTooLong(e, data)
    ensures |data| <= 65523 ==> forall s :: s in IncomingStep(e, data).sent ==> Fits(s)
  {
    hide IncomingStep, Classify, Fits, ReplyTo;
    var sent := IncomingStep(e, data).sent;
    StepSplits(e, Receive(data));
    forall s | s in sent
      ensures !RejectionTooLong(e, data) ==> Fits(s)
    {
      PayloadSizes(e, data, s);
      SizeOfSent(s);
      if s.code == CodeReject {
        RejectsAreReplies(sent, s);
      }
    }
    if RejectionTooLong(e, data) {
      if Classify(data).Unsupported? && |data| > MAX_DATA - 6 {
        UnsupportedIsRejected(e, data);
        SizeOfSent(sent[0]);
      } else {
        var s :| s in ReplyTo(e.lcpIdentifier, e.ipcpIdentifier, Classify(data)) && s.code == CodeReject;
        RepliesAreSent(sent, s);
        PayloadSizes(e, data, s);
        SizeOfSent(s);
      }
    }
  }

  lemma UnsupportedIsRejected(e: Engine, data: Packet)
    requires Classify(data).Unsupported?
    ensures |IncomingStep(e, data).sent| == 1 && |IncomingStep(e, data).sent[0].payload| == |data|
  {
    hide After, U16, BeBytes;
  }

  /** The longest packet that TLS can carry, of a protocol nobody knows, is rejected by one that it cannot. */
  lemma LongestUnknownIsTooLong(e: Engine)
    ensures
      var data: Packet := seq(MAX_DATA, _ => 0);
      RejectionTooLong(e, data) && exists s :: s in IncomingStep(e, data).sent && !Fits(s)
  {
    hide IncomingStep, Fits, ReplyTo;
    var data: Packet := seq(MAX_DATA, _ => 0);
    assert U16(data[0], data[1]) == 0;
    assert Classify(data).Unsupported?;
    SendableIff(e, data);
  }

  // ---------- Is a closed link closed for good? ----------

  predicate IsIpcpRequest(s: Sent) {
    s.protocol == PROTOCOL_IPCP && s.code == ConfigureRequest
  }

  /** Among the packets ever queued is a request for an address. */
  predicate AskedForAddress(sent: seq<Sent>) {
    exists s :: s in sent && IsIpcpRequest(s)
  }

  lemma LcpStepAsks(e: Engine, code: Code, c: ControlPacket, payload: seq<byte>)
    ensures
      var s := StepLcp(e, code, c, payload);
      s.engine.ipcpIdentifier.Some? <==> e.ipcpIdentifier.Some? || AskedForAddress(s.sent)
  {
    hide After, EchoPayload;
    var s := StepLcp(e, code, c, payload);
    if s.sent != [] {
      assert s.sent[0] in s.sent;
    }
  }

  lemma IpcpStepAsks(e: Engine, code: Code, c: ControlPacket, payload: seq<byte>)
    ensures
      var s := StepIpcp(e, code, c, payload);
      s.engine.ipcpIdentifier.Some? <==> e.ipcpIdentifier.Some? || AskedForAddress(s.sent)
  {
    hide After, AddressIn;
    var s := StepIpcp(e, code, c, payload);
    if s.sent != [] {
      assert s.sent[0] in s.sent;
    }
  }

  lemma StepAsks(e: Engine, a: Action)
    ensures
      var s := Perform(e, a);
      s.engine.ipcpIdentifier.Some? <==> e.ipcpIdentifier.Some? || AskedForAddress(s.sent)
  {
    hide After, Classify, BeBytes, StepLcp, StepIpcp;
    if a.Receive? {
      match Classify(a.data) {
        case Malformed(_) =>
        case Data(_) =>
        case Lcp(code, c, payload) => LcpStepAsks(e, code, c, payload);
        case Ipcp(code, c, payload) => IpcpStepAsks(e, code, c, payload);
        case Unsupported(_, _) =>
      }
    }
  }

  lemma AskedInEither(a: seq<Sent>, b: seq<Sent>)
    ensures AskedForAddress(a + b) <==> AskedForAddress(a) || AskedForAddress(b)
  {
    hide IsIpcpRequest;
    assert forall s :: s in a + b <==> s in a || s in b;
  }

  /** The engine holds an IPCP identifier exactly when it ever asked for an address. */
  lemma {:induction false} IdentifierIffAsked(actions: seq<Action>)
    ensures Run(actions).engine.ipcpIdentifier.Some? <==> AskedForAddress(Run(actions).sent)
  {
    if actions != [] {
      hide Perform, AskedForAddress;
      var n := |actions| - 1;
      var t := Run(actions[..n]);
      IdentifierIffAsked(actions[..n]);
      StepAsks(t.engine, actions[n]);
      AskedInEither(t.sent, Perform(t.engine, actions[n]).sent);
    }
  }

  /** The packet that reopens a closed link: an IPCP acknowledgement of the last request. */
  function Reopening(identifier: byte): Packet {
    SentBytes(Sent(PROTOCOL_IPCP, ConfigureAck, identifier, AddressOption(Ipv4Addr(10, 0, 0, 42))))
  }

  lemma ReopeningReopens(e: Engine, identifier: byte)
    requires e.ipcpIdentifier == Some(identifier)
    ensures IncomingStep(e, Reopening(identifier)).engine.state == Opened
  {
    hide Classify, After, CodeByte, AddressIn;
    var ip := Ipv4Addr(10, 0, 0, 42);
    ClassifySent(Sent(PROTOCOL_IPCP, ConfigureAck, identifier, AddressOption(ip)));
    AddressOptionRoundTrip(ip);
  }

  lemma NoRequestNoReopening(e: Engine, a: Action)
    requires e.state == Closed && e.ipcpIdentifier.None?
    ensures Perform(e, a).engine.state == Closed && Perform(e, a).engine.ipcpIdentifier.None?
  {
    hide After, Classify, AddressIn, EchoPayload;
  }

  lemma {:induction false} StaysClosed(actions: seq<Action>, more: seq<Action>)
    requires Run(actions).engine.state == Closed && Run(actions).engine.ipcpIdentifier.None?
    ensures Run(actions + more).engine.state == Closed && Run(actions + more).engine.ipcpIdentifier.None?
  {
    hide Perform;
    if more == [] {
      assert actions + more == actions;
    } else {
      var n := |more| - 1;
      StaysClosed(actions, more[..n]);
      assert (actions + more)[..|actions + more| - 1] == actions + more[..n];
      NoRequestNoReopening(Run(actions + more[..n]).engine, more[n]);
    }
  }

  lemma RunOne(actions: seq<Action>, a: Action)
    ensures Run(actions + [a]) == Extend(Run(actions), Perform(Run(actions).engine, a))
  {
    hide Perform, Extend;
    assert (actions + [a])[..|actions|] == actions;
  }

  /** A link that was closed is closed for good exactly when it had never asked for an address. */
  lemma ClosedIsFinalIff(actions: seq<Action>)
    requires Run(actions).engine.state == Closed
    ensures (forall more :: Run(actions + more).engine.state == Closed) <==> !AskedForAddress(Run(actions).sent)
  {
    hide Run, Perform, AskedForAddress, Reopening;
    IdentifierIffAsked(actions);
    var e := Run(actions).engine;
    if e.ipcpIdentifier.None? {
      forall more ensures Run(actions + more).engine.state == Closed {
        StaysClosed(actions, more);
      }
    } else {
      var a := Receive(Reopening(e.ipcpIdentifier.value));
      ReopeningIsPerformed(e);
      RunOne(actions, a);
      assert Run(actions + [a]).engine.state == Opened;
    }
  }

  lemma ReopeningIsPerformed(e: Engine)
    requires e.ipcpIdentifier.Some?
    ensures Perform(e, Receive(Reopening(e.ipcpIdentifier.value))).engine.state == Opened
  {
    hide IncomingStep, Reopening;
    ReopeningReopens(e, e.ipcpIdentifier.value);
  }

  // A run that comes to it: the link starts, its LCP request is acknowledged, the peer terminates, and then
  // acknowledges the request for an address that was sent in between.

  function LcpPacket(code: Code, identifier: byte): Action {
    Receive(SentBytes(Sent(PROTOCOL_LCP, code, identifier, [])))
  }

  function UpToTermination(): seq<Action> {
    [Begin] + [LcpPacket(ConfigureAck, 1)] + [LcpPacket(TerminateRequest, 1)]
  }

  lemma LcpPacketStep(e: Engine, code: Code, identifier: byte)
    requires !code.UnknownCode?
    ensures
      var c := ControlPacket(CodeByte(code), identifier, []);
      Perform(e, LcpPacket(code, identifier))
      == StepLcp(e, code, c, ControlBytes(CodeByte(code), identifier, []))
  {
    hide Classify, CodeByte, StepLcp, SentBytes, ControlBytes;
    ClassifySent(Sent(PROTOCOL_LCP, code, identifier, []));
  }

  /** The run is closed after the termination and open after the late acknowledgement. */
  lemma ClosedLinkReopens()
    ensures Run(UpToTermination()).engine.state == Closed
    ensures Run(UpToTermination() + [Receive(Reopening(2))]).engine.state == Opened
  {
    hide LcpPacket, SentBytes, ControlBytes, Reopening, IncomingStep;
    var first, second := [Begin], [Begin] + [LcpPacket(ConfigureAck, 1)];
    assert [] + first == first;
    RunOne([], Begin);
    var e1 := Run(first).engine;
    assert e1.state == LcpRequestSent && e1.lcpIdentifier == Some(1) && e1.nextIdentifier == 2;
    LcpPacketStep(e1, ConfigureAck, 1);
    RunOne(first, LcpPacket(ConfigureAck, 1));
    var e2 := Run(second).engine;
    assert e2.ipcpIdentifier == Some(2);
    LcpPacketStep(e2, TerminateRequest, 1);
    RunOne(second, LcpPacket(TerminateRequest, 1));
    var e3 := Run(UpToTermination()).engine;
    assert e3.state == Closed && e3.ipcpIdentifier == Some(2);
    ReopeningIsPerformed(e3);
    RunOne(UpToTermination(), Receive(Reopening(2)));
  }
}
