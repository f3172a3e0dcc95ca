/**
 * The negotiation run against a conforming peer: the peer acknowledges LCP, answers an IPCP request for any
 * other address with the address it offers, and acknowledges the request for that address. Packets may be in
 * flight in both directions and up to `budget` harmless packets of the peer's own may come in between.
 */
module PppConvergence {
  import opened Bytes
  import opened IpcpOptions
  import opened Ppp
  import opened PppRuns

  // ---------- A queue that holds one packet of interest ----------

  ghost predicate All<T(!new)>(q: seq<T>, rest: T -> bool) {
    forall i :: 0 <= i < |q| ==> rest(q[i])
  }

  ghost predicate OneAmong<T(!new)>(q: seq<T>, x: T, rest: T -> bool) {
    exists i :: 0 <= i < |q| && q[i] == x && All(q[..i], rest) && All(q[i + 1..], rest)
  }

  lemma TakeFromOneAmong<T(!new)>(q: seq<T>, x: T, rest: T -> bool)
    requires OneAmong(q, x, rest)
    ensures q != []
    ensures (q[0] == x && All(q[1..], rest)) || (rest(q[0]) && OneAmong(q[1..], x, rest))
  {
    var i :| 0 <= i < |q| && q[i] == x && All(q[..i], rest) && All(q[i + 1..], rest);
    if i > 0 {
      assert rest(q[..i][0]);
      var t := q[1..];
      assert t[i - 1] == x && t[..i - 1] == q[..i][1..] && t[i..] == q[i + 1..];
    }
  }

  lemma AddToOneAmong<T(!new)>(q: seq<T>, x: T, more: seq<T>, rest: T -> bool)
    requires OneAmong(q, x, rest) && All(more, rest)
    ensures OneAmong(q + more, x, rest)
  {
    var i :| 0 <= i < |q| && q[i] == x && All(q[..i], rest) && All(q[i + 1..], rest);
    var t := q + more;
    assert t[i] == x && t[..i] == q[..i] && t[i + 1..] == q[i + 1..] + more;
  }

  lemma AddTheOne<T(!new)>(q: seq<T>, x: T, rest: T -> bool)
    requires All(q, rest)
    ensures OneAmong(q + [x], x, rest)
  {
    var t := q + [x];
    assert t[|q|] == x && t[..|q|] == q && t[|q| + 1..] == [];
  }

  // ---------- The peer ----------

  /** Packets of the engine that ask the peer for nothing. */
  predicate Ignored(s: Sent) {
    s.code != ConfigureRequest
  }

  function Answer(s: Sent, offer: Ipv4Addr): Sent {
    if s.protocol == PROTOCOL_LCP || s.payload == AddressOption(offer) then
      Sent(s.protocol, ConfigureAck, s.identifier, s.payload)
    else
      Sent(s.protocol, ConfigureNak, s.identifier, AddressOption(offer))
  }

  /** Traffic that is no part of the negotiation: data, echoes, the peer's own requests, unknown protocols. */
  predicate Harmless(p: Packet) {
    match Classify(p)
    case Malformed(_) => false
    case Data(_) => true
    case Unsupported(_, _) => true
    case Lcp(code, _, _) => !Answers(code) && code != TerminateRequest
    case Ipcp(code, _, _) => !Answers(code) && code != TerminateRequest
  }

  // ---------- The system ----------

  datatype System = System(engine: Engine, toPeer: seq<Sent>, toEngine: seq<Packet>, budget: nat)

  datatype Move = DeliverToPeer | DeliverToEngine | Inject(packet: Packet)

  predicate Enabled(s: System, m: Move) {
    match m
    case DeliverToPeer => s.toPeer != []
    case DeliverToEngine => s.toEngine != []
    case Inject(p) => s.budget > 0 && Harmless(p)
  }

  function Apply(s: System, m: Move, offer: Ipv4Addr): System
    requires Enabled(s, m)
  {
    match m
    case DeliverToPeer =>
      var answers := if Ignored(s.toPeer[0]) then [] else [SentBytes(Answer(s.toPeer[0], offer))];
      s.(toPeer := s.toPeer[1..], toEngine := s.toEngine + answers)
    case DeliverToEngine =>
      var step := IncomingStep(s.engine, s.toEngine[0]);
      s.(engine := step.engine, toPeer := s.toPeer + step.sent, toEngine := s.toEngine[1..])
    case Inject(p) => s.(toEngine := s.toEngine + [p], budget := s.budget - 1)
  }

  /** The engine right after it was started. */
  function Started(budget: nat): System {
    System(StartStep(FRESH).engine, StartStep(FRESH).sent, [], budget)
  }

  // ---------- The invariant ----------

  predicate Negotiating(e: Engine) {
    || (e.state == LcpRequestSent && e.lcpIdentifier.Some?)
    || (e.state == IpcpRequestSent && e.lcpIdentifier.Some? && e.ipcpIdentifier.Some?)
  }

  /** The request the engine is waiting on. */
  function Outstanding(e: Engine): Sent
    requires Negotiating(e)
  {
    if e.state == LcpRequestSent then Sent(PROTOCOL_LCP, ConfigureRequest, e.lcpIdentifier.value, MRU_OPTION)
    else Sent(PROTOCOL_IPCP, ConfigureRequest, e.ipcpIdentifier.value, AddressOption(e.requestedIp))
  }

  ghost predicate RequestInFlight(s: System) {
    Negotiating(s.engine) && OneAmong(s.toPeer, Outstanding(s.engine), Ignored) && All(s.toEngine, Harmless)
  }

  ghost predicate AnswerInFlight(s: System, offer: Ipv4Addr) {
    && Negotiating(s.engine) && All(s.toPeer, Ignored)
    && OneAmong(s.toEngine, SentBytes(Answer(Outstanding(s.engine), offer)), Harmless)
  }

  ghost predicate Settled(s: System, offer: Ipv4Addr) {
    && s.engine.state == Opened && s.engine.localIp == Some(offer)
    && All(s.toPeer, Ignored) && All(s.toEngine, Harmless)
  }

  ghost predicate OnTrack(s: System, offer: Ipv4Addr) {
    RequestInFlight(s) || AnswerInFlight(s, offer) || Settled(s, offer)
  }

  /** How many requests the peer still has to answer. */
  ghost function RequestsLeft(s: System, offer: Ipv4Addr): nat {
    var ipcp := if s.engine.requestedIp == offer then 1 else 2;
    if !Negotiating(s.engine) then 0
    else if s.engine.state == LcpRequestSent then ipcp + (if RequestInFlight(s) then 1 else 0)
    else ipcp - (if RequestInFlight(s) then 0 else 1)
  }

  /** Every move makes this smaller. */
  ghost function Measure(s: System, offer: Ipv4Addr): nat {
    3 * s.budget + 2 * |s.toEngine| + |s.toPeer| + 2 * RequestsLeft(s, offer)
  }

  // ---------- What single packets do ----------

  lemma HarmlessPacket(e: Engine, p: Packet)
    requires Harmless(p) && e.state != Initial
    ensures
      var s := IncomingStep(e, p);
      && s.result.Ok? && |s.sent| <= 1 && All(s.sent, Ignored)
      && s.engine == e.(nextIdentifier := s.engine.nextIdentifier, peerIp := s.engine.peerIp)
  {
    hide After, Classify, AddressIn, EchoPayload, BeBytes;
    match Classify(p) {
      case Malformed(_) =>
      case Data(_) =>
      case Lcp(code, c, payload) =>
      case Ipcp(code, c, payload) =>
      case Unsupported(_, _) =>
    }
  }

  lemma AnswerToLcp(e: Engine, offer: Ipv4Addr)
    requires e.state == LcpRequestSent && e.lcpIdentifier.Some?
    ensures
      var s := IncomingStep(e, SentBytes(Answer(Outstanding(e), offer)));
      && s.engine.state == IpcpRequestSent && s.engine.ipcpIdentifier.Some? && s.engine.lcpIdentifier == e.lcpIdentifier
      && s.engine.requestedIp == e.requestedIp && s.sent == [Outstanding(s.engine)]
  {
    hide After, Classify, CodeByte, ControlBytes, SentBytes;
    ClassifySent(Answer(Outstanding(e), offer));
  }

  lemma NakFromPeer(e: Engine, offer: Ipv4Addr)
    requires e.state == IpcpRequestSent && Negotiating(e) && e.requestedIp != offer
    ensures
      var s := IncomingStep(e, SentBytes(Answer(Outstanding(e), offer)));
      && s.engine.state == IpcpRequestSent && s.engine.ipcpIdentifier.Some? && s.engine.lcpIdentifier == e.lcpIdentifier
      && s.engine.requestedIp == offer && s.sent == [Outstanding(s.engine)]
  {
    hide After, Classify, CodeByte, ControlBytes, SentBytes, AddressIn;
    if AddressOption(e.requestedIp) == AddressOption(offer) {
      AddressOptionInjective(e.requestedIp, offer);
    }
    ClassifySent(Answer(Outstanding(e), offer));
    AddressOptionRoundTrip(offer);
  }

  lemma AckFromPeer(e: Engine, offer: Ipv4Addr)
    requires e.state == IpcpRequestSent && Negotiating(e) && e.requestedIp == offer && offer != UNSPECIFIED
    ensures
      var s := IncomingStep(e, SentBytes(Answer(Outstanding(e), offer)));
      s.engine.state == Opened && s.engine.localIp == Some(offer) && s.sent == []
  {
    hide After, Classify, CodeByte, ControlBytes, SentBytes, AddressIn;
    ClassifySent(Answer(Outstanding(e), offer));
    AddressOptionRoundTrip(offer);
  }

  lemma AddressOptionInjective(a: Ipv4Addr, b: Ipv4Addr)
    requires AddressOption(a) == AddressOption(b)
    ensures a == b
  {
    assert Octets(a) == AddressOption(a)[2..] == Octets(b);
    assert Octets(a)[0] == Octets(b)[0] && Octets(a)[1] == Octets(b)[1];
    assert Octets(a)[2] == Octets(b)[2] && Octets(a)[3] == Octets(b)[3];
  }

  // ---------- One move ----------

  /** The system stays on course and the measure goes down. */
  ghost predicate Advances(s: System, t: System, offer: Ipv4Addr) {
    OnTrack(t, offer) && Measure(t, offer) < Measure(s, offer)
  }

  lemma FlightShows(s: System)
    requires RequestInFlight(s)
    ensures !All(s.toPeer, Ignored)
  {
    var i :| 0 <= i < |s.toPeer| && s.toPeer[i] == Outstanding(s.engine);
    assert !Ignored(s.toPeer[i]);
  }

  lemma FlightIsExclusive(s: System)
    requires All(s.toPeer, Ignored)
    ensures !RequestInFlight(s)
  {
    hide All;
    if RequestInFlight(s) {
      FlightShows(s);
    }
  }

  lemma InjectAdvances(s: System, p: Packet, offer: Ipv4Addr)
    requires OnTrack(s, offer) && Enabled(s, Inject(p))
    ensures Advances(s, Apply(s, Inject(p), offer), offer)
  {
    hide Harmless, SentBytes, Classify;
    var t := Apply(s, Inject(p), offer);
    if RequestInFlight(s) {
      assert RequestInFlight(t);
    } else if AnswerInFlight(s, offer) {
      AddToOneAmong(s.toEngine, SentBytes(Answer(Outstanding(s.engine), offer)), [p], Harmless);
      FlightIsExclusive(t);
    }
  }

  lemma DeliverToPeerAdvances(s: System, offer: Ipv4Addr)
    requires OnTrack(s, offer) && s.toPeer != []
    ensures Advances(s, Apply(s, DeliverToPeer, offer), offer)
  {
    hide Harmless, SentBytes, Classify;
    var t := Apply(s, DeliverToPeer, offer);
    if RequestInFlight(s) {
      var request := Outstanding(s.engine);
      TakeFromOneAmong(s.toPeer, request, Ignored);
      if Ignored(s.toPeer[0]) {
        assert t.toEngine == s.toEngine;
        assert RequestInFlight(t);
      } else {
        AddTheOne(s.toEngine, SentBytes(Answer(request, offer)), Harmless);
        assert AnswerInFlight(t, offer);
        FlightIsExclusive(t);
      }
    } else {
      assert Ignored(s.toPeer[0]) && t.toEngine == s.toEngine;
      FlightIsExclusive(t);
    }
  }

  lemma HarmlessAdvances(s: System, offer: Ipv4Addr)
    requires s.toEngine != [] && Harmless(s.toEngine[0])
    requires
      || (RequestInFlight(s) && All(s.toEngine[1..], Harmless))
      || (Settled(s, offer) && All(s.toEngine[1..], Harmless))
      || (!RequestInFlight(s) && Negotiating(s.engine) && All(s.toPeer, Ignored)
          && OneAmong(s.toEngine[1..], SentBytes(Answer(Outstanding(s.engine), offer)), Harmless))
    ensures Advances(s, Apply(s, DeliverToEngine, offer), offer)
  {
    hide Harmless, SentBytes, Classify, IncomingStep;
    var t := Apply(s, DeliverToEngine, offer);
    HarmlessPacket(s.engine, s.toEngine[0]);
    var sent := IncomingStep(s.engine, s.toEngine[0]).sent;
    if RequestInFlight(s) {
      AddToOneAmong(s.toPeer, Outstanding(s.engine), sent, Ignored);
      assert RequestInFlight(t);
    } else {
      assert All(t.toPeer, Ignored);
      FlightIsExclusive(t);
    }
  }

  lemma AnswerAdvances(s: System, offer: Ipv4Addr)
    requires offer != UNSPECIFIED && Negotiating(s.engine)
    requires All(s.toPeer, Ignored) && s.toEngine != [] && All(s.toEngine[1..], Harmless)
    requires s.toEngine[0] == SentBytes(Answer(Outstanding(s.engine), offer))
    ensures Advances(s, Apply(s, DeliverToEngine, offer), offer)
  {
    hide Harmless, SentBytes, Classify, IncomingStep, AddressOption;
    var t := Apply(s, DeliverToEngine, offer);
    FlightIsExclusive(s);
    if s.engine.state == LcpRequestSent {
      AnswerToLcp(s.engine, offer);
      AddTheOne(s.toPeer, Outstanding(t.engine), Ignored);
      assert RequestInFlight(t);
    } else if s.engine.requestedIp == offer {
      AckFromPeer(s.engine, offer);
      assert t.toPeer == s.toPeer;
      assert Settled(t, offer);
    } else {
      NakFromPeer(s.engine, offer);
      AddTheOne(s.toPeer, Outstanding(t.engine), Ignored);
      assert RequestInFlight(t);
    }
  }

  lemma DeliverToEngineAdvances(s: System, offer: Ipv4Addr)
    requires offer != UNSPECIFIED && OnTrack(s, offer) && s.toEngine != []
    ensures Advances(s, Apply(s, DeliverToEngine, offer), offer)
  {
    hide Harmless, SentBytes, Classify, IncomingStep;
    if RequestInFlight(s) || Settled(s, offer) {
      HarmlessAdvances(s, offer);
    } else {
      var answer := SentBytes(Answer(Outstanding(s.engine), offer));
      TakeFromOneAmong(s.toEngine, answer, Harmless);
      if s.toEngine[0] == answer && All(s.toEngine[1..], Harmless) {
        AnswerAdvances(s, offer);
      } else {
        HarmlessAdvances(s, offer);
      }
    }
  }

  lemma MoveAdvances(s: System, m: Move, offer: Ipv4Addr)
    requires offer != UNSPECIFIED && OnTrack(s, offer) && Enabled(s, m)
    ensures Advances(s, Apply(s, m, offer), offer)
  {
    hide Harmless, Apply, OnTrack;
    match m
    case DeliverToPeer => DeliverToPeerAdvances(s, offer);
    case DeliverToEngine => DeliverToEngineAdvances(s, offer);
    case Inject(p) => InjectAdvances(s, p, offer);
  }

  // ---------- Whole runs ----------

  ghost predicate Leads(s: System, moves: seq<Move>, t: System, offer: Ipv4Addr)
    decreases |moves|
  {
    if moves == [] then s == t
    else Enabled(s, moves[0]) && Leads(Apply(s, moves[0], offer), moves[1..], t, offer)
  }

  lemma {:induction false} RunAdvances(s: System, moves: seq<Move>, t: System, offer: Ipv4Addr)
    requires offer != UNSPECIFIED && OnTrack(s, offer) && Leads(s, moves, t, offer)
    ensures OnTrack(t, offer) && Measure(t, offer) + |moves| <= Measure(s, offer)
    decreases |moves|
  {
    hide OnTrack, Measure, Enabled, Apply;
    if moves != [] {
      MoveAdvances(s, moves[0], offer);
      RunAdvances(Apply(s, moves[0], offer), moves[1..], t, offer);
    }
  }

  lemma StartedOnTrack(budget: nat, offer: Ipv4Addr)
    ensures OnTrack(Started(budget), offer) && Measure(Started(budget), offer) <= 3 * budget + 7
  {
    hide OneAmong;
    var s := Started(budget);
    AddTheOne([], Outstanding(s.engine), Ignored);
    assert [] + [Outstanding(s.engine)] == s.toPeer;
    assert RequestInFlight(s);
  }

  lemma AtRestIsSettled(t: System, offer: Ipv4Addr)
    requires OnTrack(t, offer) && t.toPeer == [] && t.toEngine == []
    ensures Settled(t, offer)
  {
  }

  /**
   * Every run from the start, in whatever order packets are delivered, is no longer than the measure allows, and
   * whenever nothing is left in flight the link is open with the offered address.
   */
  lemma Converges(budget: nat, moves: seq<Move>, t: System, offer: Ipv4Addr)
    requires offer != UNSPECIFIED && Leads(Started(budget), moves, t, offer)
    ensures |moves| <= 3 * budget + 7
    ensures t.toPeer == [] && t.toEngine == [] ==> t.engine.state == Opened && t.engine.localIp == Some(offer)
  {
    hide Leads, OnTrack, Measure, Started;
    StartedOnTrack(budget, offer);
    RunAdvances(Started(budget), moves, t, offer);
    if t.toPeer == [] && t.toEngine == [] {
      AtRestIsSettled(t, offer);
    }
  }
}
