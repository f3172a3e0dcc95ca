/** The sessions of the SOCKS proxy that go through the tunnel: a client's socket on one side, a TCP socket of the
    user-space network stack on the other. */
module ProxiedSessions {
  import opened Bytes
  import opened Io
  import opened PumpQueues

  /** The answer to a SOCKS5 request that succeeded, with the address and port left at zero. */
  const SOCKS_SUCCESS: seq<byte> := [0x05, 0x00, 0x00, 0x01, 0, 0, 0, 0, 0, 0]

  // ---------- The network stack's TCP socket ----------

  datatype SendEvent = Sent(n: nat) | SendFailed

  /**
   * A TCP socket of the network stack as an oracle. A send takes what fits into the transmit buffer, so a short
   * send leaves the buffer full until the next poll; receiving is first in, first out. Sends may fail at any
   * time, and do when the socket may not send.
   */
  class TcpSocket {
    var txFree: nat
    var maySend: bool
    var established: bool
    var active: bool
    var shut: bool
    var incoming: seq<byte>
    var faults: seq<bool>
    /** Everything put into the transmit buffer, and everything handed out of the receive buffer. */
    ghost var accepted: seq<byte>
    ghost var received: seq<byte>
    /** Whether the latest send failed. */
    ghost var lastFailed: bool

    constructor (txFree: nat, faults: seq<bool>)
      ensures accepted == received == incoming == [] && this.txFree == txFree && this.faults == faults
      ensures !shut && !maySend && !established && active && !lastFailed
    {
      this.txFree, this.faults := txFree, faults;
      maySend, established, active, shut := false, false, true, false;
      incoming, accepted, received, lastFailed := [], [], [], false;
    }

    predicate CanSend()
      reads this
    {
      maySend && txFree > 0
    }

    method Send(data: seq<byte>) returns (event: SendEvent)
      requires data != []
      modifies this`txFree, this`faults, this`accepted, this`lastFailed
      ensures event.Sent? ==>
                && event.n <= |data| && accepted == old(accepted) + data[..event.n]
                && txFree == old(txFree) - event.n && (event.n < |data| ==> txFree == 0)
                && (old(txFree) > 0 ==> event.n > 0)
      ensures event.SendFailed? ==> accepted == old(accepted) && txFree == old(txFree)
      ensures !maySend ==> event.SendFailed?
      ensures maySend && old(faults) == [] ==> event.Sent? && faults == []
      ensures lastFailed == event.SendFailed?
    {
      var fault := faults != [] && faults[0];
      if faults != [] {
        faults := faults[1..];
      }
      lastFailed := fault || !maySend;
      if fault || !maySend {
        return SendFailed;
      }
      var n := if |data| <= txFree then |data| else txFree;
      accepted := accepted + data[..n];
      txFree := txFree - n;
      return Sent(n);
    }

    method Recv(max: nat) returns (bytes: seq<byte>)
      requires max > 0
      modifies this`incoming, this`received
      ensures bytes + incoming == old(incoming) && received == old(received) + bytes
      ensures bytes == [] <==> old(incoming) == []
    {
      var n := if |incoming| <= max then |incoming| else max;
      bytes := incoming[..n];
      incoming := incoming[n..];
      received := received + bytes;
    }

    /** A closed socket never sends again. */
    method Close()
      modifies this`shut, this`maySend, this`established
      ensures shut && !maySend && !established
    {
      shut, maySend, established := true, false, false;
    }

    /** The network moved on: any amount of buffer was freed, anything arrived, the state changed. */
    method Poll(freed: nat, arrived: seq<byte>, maySend: bool, established: bool, active: bool)
      modifies this`txFree, this`incoming, this`maySend, this`established, this`active
      ensures incoming == old(incoming) + arrived && txFree == old(txFree) + freed && this.active == active
      ensures this.maySend == (maySend && !shut) && this.established == (established && !shut)
    {
      txFree, incoming := txFree + freed, incoming + arrived;
      this.maySend, this.established, this.active := maySend && !shut, established && !shut, active;
    }
  }

  // ---------- Client to TCP ----------

  /** The body of the sending loop: one chunk; `goOn` if all of it was taken. */
  method SendChunk(queue: seq<byte>, socket: TcpSocket)
    returns (rest: seq<byte>, n: nat, goOn: bool, failed: bool, ghost lost: seq<byte>)
    requires queue != [] && socket.CanSend()
    modifies socket`txFree, socket`faults, socket`accepted, socket`lastFailed
    modifies socket`shut, socket`maySend, socket`established
    ensures socket.accepted + lost + rest == old(socket.accepted) + queue
    ensures n == |socket.accepted| - |old(socket.accepted)| && socket.txFree + n == old(socket.txFree)
    ensures old(socket.faults) == [] ==> !failed && socket.faults == []
    ensures failed == socket.lastFailed && (failed <==> lost != []) && |lost| <= IO_BUFFER_SIZE
    ensures if failed then socket.shut && !socket.maySend && !socket.established
            else n > 0 && socket.maySend
                 && socket.shut == old(socket.shut) && socket.established == old(socket.established)
    ensures !failed && !goOn ==> !socket.CanSend()
    ensures goOn ==> !failed
  {
    n, goOn, failed, lost := 0, false, false, [];
    ghost var accepted := socket.accepted;
    var chunk, others := DrainChunk(queue, IO_BUFFER_SIZE);
    AppendAssoc(accepted, chunk, others);
    var event := socket.Send(chunk);
    match event
    case SendFailed =>
      socket.Close();
      rest, failed, lost := others, true, chunk;
    case Sent(taken) =>
      ChunkTaken(accepted, chunk, taken, others);
      AppendEmpty(socket.accepted, lost);
      n := taken;
      if taken < |chunk| {
        rest := PushFrontBytes(others, chunk[taken..]);
      } else {
        rest, goOn := others, true;
      }
  }

  /** Send a queue until it is empty or the socket takes no more; a failed send closes the socket. */
  method SendOut(queue: seq<byte>, socket: TcpSocket)
    returns (rest: seq<byte>, written: nat, failed: bool, ghost lost: seq<byte>)
    modifies socket`txFree, socket`faults, socket`accepted, socket`lastFailed
    modifies socket`shut, socket`maySend, socket`established
    ensures socket.accepted + lost + rest == old(socket.accepted) + queue
    ensures written == |socket.accepted| - |old(socket.accepted)| && socket.txFree + written == old(socket.txFree)
    ensures rest == [] || !socket.CanSend()
    ensures failed <==> lost != []
    ensures old(socket.faults) == [] ==> !failed && socket.faults == []
    ensures failed ==> socket.lastFailed && socket.shut && !socket.maySend && !socket.established
    ensures socket.lastFailed ==> failed || old(socket.lastFailed)
    ensures |lost| <= IO_BUFFER_SIZE
    ensures !failed ==>
              && socket.maySend == old(socket.maySend) && socket.shut == old(socket.shut)
              && socket.established == old(socket.established)
    ensures queue == [] || !old(socket.CanSend()) ==>
              rest == queue && lost == [] && socket.accepted == old(socket.accepted) && written == 0
    ensures queue != [] && old(socket.CanSend()) && !failed ==> written > 0
  {
    rest, written, failed, lost := queue, 0, false, [];
    ghost var start := socket.accepted;
    AppendEmpty(start, lost);
    while socket.CanSend() && rest != []
      invariant socket.accepted + lost + rest == start + queue && !failed && lost == []
      invariant written == |socket.accepted| - |start| && socket.txFree + written == old(socket.txFree)
      invariant old(socket.faults) == [] ==> socket.faults == []
      invariant socket.maySend == old(socket.maySend) && socket.shut == old(socket.shut)
      invariant socket.established == old(socket.established)
      invariant socket.lastFailed ==> old(socket.lastFailed)
      invariant written == 0 ==> rest == queue && socket.accepted == start
      invariant written > 0 ==> queue != [] && old(socket.CanSend())
      decreases socket.txFree
    {
      AppendEmpty(socket.accepted, lost);
      var n, goOn;
      rest, n, goOn, failed, lost := SendChunk(rest, socket);
      written := written + n;
      if !goOn {
        return;
      }
    }
  }

  /** Send bytes that were just read; `rest` is what a short send left. A failed send closes the socket. */
  method PassOn(bytes: seq<byte>, socket: TcpSocket)
    returns (rest: seq<byte>, written: nat, refused: bool, ghost lost: seq<byte>)
    requires bytes != [] && socket.CanSend()
    modifies socket`txFree, socket`faults, socket`accepted, socket`lastFailed
    modifies socket`shut, socket`maySend, socket`established
    ensures socket.accepted + lost + rest == old(socket.accepted) + bytes
    ensures written == |socket.accepted| - |old(socket.accepted)|
    ensures if refused then lost == bytes && rest == [] else lost == [] && socket.txFree < old(socket.txFree)
    ensures socket.txFree + |socket.accepted| == old(socket.txFree + |socket.accepted|)
    ensures rest != [] ==> socket.txFree == 0
    ensures refused == socket.lastFailed
    ensures old(socket.faults) == [] ==> !refused && socket.faults == []
    ensures refused ==> socket.shut && !socket.maySend && !socket.established
    ensures !refused ==>
              && socket.maySend == old(socket.maySend) && socket.shut == old(socket.shut)
              && socket.established == old(socket.established)
  {
    ghost var start := socket.accepted;
    var event := socket.Send(bytes);
    match event
    case SendFailed =>
      rest, written, refused, lost := [], 0, true, bytes;
      AppendEmpty(start + bytes, rest);
      socket.Close();
    case Sent(n) =>
      rest, written, refused, lost := bytes[n..], n, false, [];
      assert bytes == bytes[..n] + rest;
      AppendAssoc(start, bytes[..n], rest);
      AppendEmpty(start + bytes[..n], lost);
  }

  datatype ReadSendEnd = Paused | ClientClosed | ClientFailed | SendRefused

  /** The body of the reading loop: one read, and what it gave sent. */
  method ForwardOne(client: ByteSource, socket: TcpSocket)
    returns (rest: seq<byte>, n: nat, goOn: bool, end: ReadSendEnd, ghost bytes: seq<byte>, ghost lost: seq<byte>)
    requires socket.CanSend()
    modifies client, socket`txFree, socket`faults, socket`accepted, socket`lastFailed
    modifies socket`shut, socket`maySend, socket`established
    ensures client.taken == old(client.taken) + bytes && bytes == FirstRead(old(client.script), IO_BUFFER_SIZE)
    ensures socket.accepted + lost + rest == old(socket.accepted) + bytes
    ensures n == |socket.accepted| - |old(socket.accepted)| && socket.txFree + n == old(socket.txFree)
    ensures old(socket.faults) == [] ==> end != SendRefused && socket.faults == []
    ensures (end == SendRefused <==> lost != []) && |lost| <= IO_BUFFER_SIZE
    ensures if end == SendRefused then socket.lastFailed else socket.lastFailed ==> old(socket.lastFailed)
    ensures if end == Paused then
              socket.maySend && socket.shut == old(socket.shut) && socket.established == old(socket.established)
            else rest == [] && socket.shut && !socket.maySend && !socket.established
    ensures bytes != [] ==>
              && Readable(old(client.script)) == bytes + Readable(client.script)
              && Ending(old(client.script)) == Ending(client.script)
              && (end == Paused || end == SendRefused)
    ensures bytes == [] ==>
              && Readable(old(client.script)) == [] && !goOn && rest == [] && n == 0 && end != SendRefused
              && Ending(old(client.script))
                 == if end == Paused then NotYet else if end == ClientClosed then EndOfStream else ReadError
    ensures goOn ==> end == Paused && rest == [] && n > 0
    ensures !goOn && bytes != [] ==> !socket.CanSend()
  {
    hide Readable, Ending, FirstRead;
    rest, n, goOn, end, bytes, lost := [], 0, false, Paused, [], [];
    AppendEmpty(client.taken, bytes);
    AppendEmpty(socket.accepted, bytes);
    AppendEmpty(socket.accepted + lost, rest);
    var event := client.Read(IO_BUFFER_SIZE);
    match event
    case ReadFailed(kind) =>
      if kind != WouldBlock {
        end := ClientFailed;
        socket.Close();
      }
    case Chunk(chunk) =>
      bytes := chunk;
      if chunk == [] {
        end := ClientClosed;
        socket.Close();
      } else {
        var refused;
        rest, n, refused, lost := PassOn(chunk, socket);
        if refused {
          end := SendRefused;
        } else {
          goOn := rest == [];
        }
      }
  }

  /** Pass what the client sends straight on while the socket takes bytes; `rest` is what a short send left. */
  method ReadAndSend(client: ByteSource, socket: TcpSocket)
    returns (rest: seq<byte>, written: nat, end: ReadSendEnd, ghost more: seq<byte>, ghost lost: seq<byte>)
    modifies client, socket`txFree, socket`faults, socket`accepted, socket`lastFailed
    modifies socket`shut, socket`maySend, socket`established
    ensures client.taken == old(client.taken) + more && more <= Readable(old(client.script))
    ensures socket.accepted + lost + rest == old(socket.accepted) + more
    ensures written == |socket.accepted| - |old(socket.accepted)| && socket.txFree + written == old(socket.txFree)
    ensures (end == SendRefused <==> lost != []) && |lost| <= IO_BUFFER_SIZE
    ensures old(socket.CanSend()) ==> FirstRead(old(client.script), IO_BUFFER_SIZE) <= more
    ensures old(socket.faults) == [] ==> end != SendRefused && socket.faults == []
    ensures end == SendRefused ==> socket.lastFailed
    ensures end != SendRefused && socket.lastFailed ==> old(socket.lastFailed)
    ensures end != Paused ==> rest == [] && socket.shut && !socket.maySend && !socket.established
    ensures end == Paused ==>
              && socket.maySend == old(socket.maySend) && socket.shut == old(socket.shut)
              && socket.established == old(socket.established) && (rest == [] || !socket.CanSend())
    ensures end == ClientClosed || end == ClientFailed ==>
              && more == Readable(old(client.script))
              && Ending(old(client.script)) == if end == ClientClosed then EndOfStream else ReadError
    ensures socket.CanSend() ==> more == Readable(old(client.script)) && Ending(old(client.script)) == NotYet
    ensures !old(socket.CanSend()) ==>
              && rest == more == lost == [] && end == Paused && !socket.CanSend()
              && socket.accepted == old(socket.accepted) && socket.lastFailed == old(socket.lastFailed)
  {
    hide Readable, Ending, FirstRead;
    rest, written, end, more, lost := [], 0, Paused, [], [];
    ghost var start, all := socket.accepted, Readable(client.script);
    ghost var first := FirstRead(client.script, IO_BUFFER_SIZE);
    AppendEmpty(client.taken, more);
    AppendEmpty(start, more);
    assert more + all == all;
    while socket.CanSend()
      invariant client.taken == old(client.taken) + more
      invariant more + Readable(client.script) == all && Ending(client.script) == Ending(old(client.script))
      invariant socket.accepted == start + more && end == Paused && rest == lost == []
      invariant written == |socket.accepted| - |start| && socket.txFree + written == old(socket.txFree)
      invariant old(socket.faults) == [] ==> socket.faults == []
      invariant socket.maySend == old(socket.maySend) && socket.shut == old(socket.shut)
      invariant socket.established == old(socket.established)
      invariant if written == 0 then more == [] && client.script == old(client.script) else first <= more
      invariant if old(socket.CanSend()) then socket.lastFailed ==> old(socket.lastFailed)
                else written == 0 && socket.lastFailed == old(socket.lastFailed)
      decreases socket.txFree
    {
      ghost var before, bytes := more, [];
      var n, goOn;
      rest, n, goOn, end, bytes, lost := ForwardOne(client, socket);
      more := before + bytes;
      AppendAssoc(old(client.taken), before, bytes);
      AppendAssoc(start, before, bytes);
      AppendAssoc(before, bytes, Readable(client.script));
      written := written + n;
      if !goOn {
        if bytes == [] {
          AppendEmpty(before, bytes);
        }
        return;
      }
      AppendEmpty(socket.accepted, lost);
      AppendEmpty(socket.accepted, rest);
    }
    AppendEmpty(socket.accepted, lost);
    AppendEmpty(socket.accepted + lost, rest);
  }

  // ---------- Sessions ----------

  /** What writing all of n bytes does: bytes taken, and the script that is left. */
  datatype Filled = Filled(taken: nat, script: seq<WriteEvent>)

  function More(n: nat, f: Filled): Filled {
    f.(taken := n + f.taken)
  }

  /** Write until all is taken; a stream that blocks, fails or takes nothing ends it. */
  function Filling(shut: bool, script: seq<WriteEvent>, n: nat): (f: Filled)
    ensures f.taken <= n
    decreases |script|
  {
    if n == 0 || shut then Filled(0, script)
    else
      var event := Answer(script, n);
      if event.WriteFailed? || event.limit == 0 then Filled(0, Later(script))
      else More(event.limit, Filling(false, Later(script), n - event.limit))
  }

  /** What the stream takes before it first blocks, fails or takes nothing. */
  function Room(script: seq<WriteEvent>): nat {
    if Ready(script) then script[0].limit + Room(script[1..]) else 0
  }

  /** As much is written as the stream takes before that; so all of n bytes exactly if it takes n. */
  lemma {:induction false} FillingTakes(script: seq<WriteEvent>, n: nat)
    ensures Filling(false, script, n).taken == Smaller(n, Room(script)) && Filling(true, script, n).taken == 0
    decreases |script|
  {
    if n > 0 && Ready(script) {
      FillingStep(false, script, n);
      FillingTakes(script[1..], n - Smaller(n, script[0].limit));
    }
  }

  lemma FillingStep(shut: bool, script: seq<WriteEvent>, n: nat)
    ensures
      var event := Answer(script, n);
      Filling(shut, script, n) ==
      if n == 0 || shut then Filled(0, script)
      else if event.WriteFailed? || event.limit == 0 then Filled(0, Later(script))
      else More(event.limit, Filling(false, Later(script), n - event.limit))
  {
  }

  method WriteAll(bytes: seq<byte>, client: TcpStream) returns (ok: bool)
    modifies client.output
    ensures
      var f := Filling(client.writeShut, old(client.output.script), |bytes|);
      && (ok <==> f.taken == |bytes|) && client.output.script == f.script
      && client.output.accepted == old(client.output.accepted) + bytes[..f.taken]
    ensures ok ==> client.output.accepted == old(client.output.accepted) + bytes
  {
    hide Answer, Filling;
    var done := 0;
    ghost var start, all := client.output.accepted, Filling(client.writeShut, client.output.script, |bytes|);
    assert start + bytes[..0] == start;
    while done < |bytes|
      invariant done <= |bytes| && client.output.accepted == start + bytes[..done]
      invariant all == More(done, Filling(client.writeShut, client.output.script, |bytes| - done))
    {
      FillingStep(client.writeShut, client.output.script, |bytes| - done);
      var event := client.Write(bytes[done..]);
      if event.WriteFailed? || event.limit == 0 {
        assert start + bytes[..done] + bytes[done..][..0] == start + bytes[..done];
        return false;
      }
      assert bytes[done..][..event.limit] == bytes[done..done + event.limit];
      AppendAssoc(start, bytes[..done], bytes[done..done + event.limit]);
      assert bytes[..done] + bytes[done..done + event.limit] == bytes[..done + event.limit];
      done := done + event.limit;
    }
    FillingStep(client.writeShut, client.output.script, 0);
    assert bytes[..done] == bytes;
    return true;
  }

  /** What the client received: the payload, with the SOCKS reply after the part that came early. */
  ghost function ClientSees(replied: bool, early: seq<byte>, delivered: seq<byte>): seq<byte>
    requires early <= delivered
  {
    if replied then early + SOCKS_SUCCESS + delivered[|early|..] else delivered
  }

  ghost predicate Seen(replied: bool, early: seq<byte>, delivered: seq<byte>, accepted: seq<byte>) {
    && early <= delivered && (!replied ==> early == delivered)
    && accepted == ClientSees(replied, early, delivered)
  }

  lemma DropOfAppend<T>(a: seq<T>, b: seq<T>, n: nat)
    requires n <= |a|
    ensures (a + b)[n..] == a[n..] + b
  {
  }

  lemma SeenAfterWrite(replied: bool, early: seq<byte>, delivered: seq<byte>, accepted: seq<byte>, more: seq<byte>)
    requires Seen(replied, early, delivered, accepted)
    ensures Seen(replied, if replied then early else delivered + more, delivered + more, accepted + more)
  {
    DropOfAppend(delivered, more, |early|);
    AppendAssoc(early + SOCKS_SUCCESS, delivered[|early|..], more);
  }

  lemma PrefixAppend<T>(a: seq<T>, b: seq<T>, c: seq<T>)
    requires b <= c
    ensures a + b <= a + c && a <= a + b
  {
  }

  lemma AppendGrows<T>(a: seq<T>, b: seq<T>)
    ensures a <= a + b && (a + b == a <==> b == [])
  {
    assert a + b == a ==> |b| == 0;
  }

  /**
   * The direction to the client: received bytes are delivered, dropped or queued; the client sees the delivered
   * ones with the reply at its place.
   */
  ghost predicate DownFlow(received: seq<byte>, delivered: seq<byte>, queue: seq<byte>, drops: seq<Drop<byte>>,
                           replied: bool, early: seq<byte>, accepted: seq<byte>)
  {
    Balanced(received, delivered, queue, drops) && Seen(replied, early, delivered, accepted)
  }

  lemma DownAfterRead(received: seq<byte>, delivered: seq<byte>, queue: seq<byte>, drops: seq<Drop<byte>>,
                      replied: bool, early: seq<byte>, accepted: seq<byte>, more: seq<byte>)
    requires DownFlow(received, delivered, queue, drops, replied, early, accepted)
    ensures DownFlow(received + more, delivered, queue + more, drops, replied, early, accepted)
  {
    hide Balanced, Seen;
    BalanceAfterRead(received, delivered, queue, drops, more);
  }

  lemma DownAfterReply(received: seq<byte>, delivered: seq<byte>, queue: seq<byte>, drops: seq<Drop<byte>>,
                       early: seq<byte>, accepted: seq<byte>)
    requires DownFlow(received, delivered, queue, drops, false, early, accepted)
    ensures DownFlow(received, delivered, queue, drops, true, early, accepted + SOCKS_SUCCESS)
  {
    hide Balanced;
    AppendEmpty(delivered + SOCKS_SUCCESS, delivered[|delivered|..]);
  }

  /** A write to the client, whose stream and payload grow by the same bytes. */
  lemma DownAfterWrite(received: seq<byte>, delivered: seq<byte>, queue: seq<byte>, drops: seq<Drop<byte>>,
                       replied: bool, early: seq<byte>, accepted: seq<byte>,
                       out: seq<byte>, lost: seq<byte>, rest: seq<byte>)
    requires queue == out + lost + rest
    requires DownFlow(received, delivered, queue, drops, replied, early, accepted)
    ensures DownFlow(received, delivered + out, rest, Noted(drops, |delivered + out|, lost),
                     replied, if replied then early else delivered + out, accepted + out)
  {
    hide Balanced, Noted;
    SeenAfterWrite(replied, early, delivered, accepted, out);
    hide Seen;
    AppendAssoc(out, lost, rest);
    AppendAssoc(delivered, out, lost + rest);
    AppendAssoc(delivered + out, lost, rest);
    BalanceAfterWrite(received, delivered, queue, drops, delivered + out, rest, lost);
  }

  const SEND_FAILED := "proxy TCP send failed"
  const CLIENT_CLOSED := "client closed connection"
  const CLIENT_READ_FAILED := "client read failed"
  const CLIENT_TOOK_NOTHING := "client write returned zero"
  const CLIENT_WRITE_FAILED := "client write failed"

  function EndReason(end: ReadSendEnd): Option<string> {
    match end
    case Paused => None
    case ClientClosed => Some(CLIENT_CLOSED)
    case ClientFailed => Some(CLIENT_READ_FAILED)
    case SendRefused => Some(SEND_FAILED)
  }

  class ProxySession {
    const client: TcpStream
    const socket: TcpSocket
    var toRemote: seq<byte>
    var toClient: seq<byte>
    var socksReplied: bool
    var localClosed: bool
    var remoteClosed: bool
    var clientToRemoteBytes: nat
    var remoteToClientBytes: nat
    var closeReason: Option<string>
    ghost var lostUp: seq<Drop<byte>>
    ghost var lostDown: seq<Drop<byte>>
    /** The payload the client took, and how much of it came before the SOCKS reply. */
    ghost var delivered: seq<byte>
    ghost var early: seq<byte>

    /** Nothing of the client's goes up before it has its reply, and nothing is left behind when it has closed. */
    ghost predicate ValidUp()
      reads `toRemote, `socksReplied, `localClosed, `clientToRemoteBytes, `lostUp, client.input`taken
      reads socket`accepted, socket`maySend, socket`established, socket`shut, socket`lastFailed
    {
      && Balanced(client.input.taken, socket.accepted, toRemote, lostUp)
      && clientToRemoteBytes == |socket.accepted|
      && (localClosed ==> toRemote == [] && socket.shut)
      && (socket.shut ==> !socket.maySend && !socket.established) && (socket.lastFailed ==> socket.shut)
      && (!socksReplied ==> client.input.taken == [])
    }

    ghost predicate ValidDown()
      reads `toClient, `socksReplied, `remoteToClientBytes, `lostDown, `delivered, `early
      reads client.output`accepted, socket`received
    {
      && remoteToClientBytes == |socket.received|
      && DownFlow(socket.received, delivered, toClient, lostDown, socksReplied, early, client.output.accepted)
    }

    /** A session that is closed in any way has a reason. */
    ghost predicate Reasoned()
      reads `closeReason, `remoteClosed, socket`shut
    {
      remoteClosed || socket.shut ==> closeReason.Some?
    }

    /** What a round does about the reply: it is written as a whole when the socket is found established. */
    function Replying(): Filled
      reads `socksReplied, socket`established, client`writeShut, client.output`script
    {
      if socksReplied || !socket.established then Filled(|SOCKS_SUCCESS|, client.output.script)
      else Filling(client.writeShut, client.output.script, |SOCKS_SUCCESS|)
    }

    /** What a round then does about the payload, received or still queued. */
    function Paying(): Written
      reads `socksReplied, `toClient, socket`established, socket`incoming, client`writeShut, client.output`script
    {
      WritingTo(client.writeShut, Replying().script, |toClient + socket.incoming|)
    }

    ghost predicate Valid()
      reads this, client, client.input, client.output, socket
    {
      ValidUp() && ValidDown() && Reasoned()
    }

    constructor (client: TcpStream, socket: TcpSocket)
      requires client.input.taken == [] && client.output.accepted == []
      requires socket.accepted == [] && socket.received == [] && !socket.shut && !socket.lastFailed
      ensures Valid() && this.client == client && this.socket == socket
      ensures toRemote == toClient == early == [] && lostUp == lostDown == []
      ensures !localClosed && !remoteClosed && !socksReplied
    {
      this.client, this.socket := client, socket;
      toRemote, toClient, lostUp, lostDown, delivered, early := [], [], [], [], [], [];
      socksReplied, localClosed, remoteClosed := false, false, false;
      clientToRemoteBytes, remoteToClientBytes := 0, 0;
      closeReason := None;
    }

    /** Only the first reason is kept. */
    method MarkClosed(reason: string)
      modifies this`closeReason
      ensures closeReason == FirstReason(old(closeReason), Some(reason))
    {
      if closeReason.None? {
        closeReason := Some(reason);
      }
    }

    lemma UpFacts()
      requires ValidUp()
      ensures localClosed && lostUp == [] ==> socket.accepted == client.input.taken
      ensures socket.shut ==> !socket.CanSend()
    {
      hide ValidDown;
      if localClosed {
        AppendEmpty(socket.accepted, toRemote);
      }
    }

    method CloseSocket(reason: string)
      requires Valid()
      modifies `closeReason, socket`shut, socket`maySend, socket`established
      ensures Valid() && socket.shut && !socket.CanSend()
      ensures closeReason == FirstReason(old(closeReason), Some(reason))
    {
      hide Balanced, ValidDown;
      MarkClosed(reason);
      socket.Close();
    }

    /** The first loop: send what is queued. */
    method SendQueued()
      requires ValidUp() && Reasoned() && !localClosed && socksReplied
      modifies this`toRemote, this`clientToRemoteBytes, this`closeReason, this`lostUp
      modifies socket`txFree, socket`faults, socket`accepted, socket`lastFailed
      modifies socket`shut, socket`maySend, socket`established
      ensures ValidUp() && Reasoned() && old(lostUp) <= lostUp && (toRemote == [] || !socket.CanSend())
      ensures socket.txFree + |socket.accepted| == old(socket.txFree + |socket.accepted|)
      ensures old(socket.faults) == [] ==> lostUp == old(lostUp) && socket.faults == []
      ensures lostUp != old(lostUp) ==> socket.shut && socket.lastFailed
      ensures lostUp == old(lostUp) ==> socket.shut == old(socket.shut) && socket.maySend == old(socket.maySend)
      ensures old(toRemote) == [] ==> lostUp == old(lostUp) && socket.txFree == old(socket.txFree)
      ensures !old(socket.CanSend()) ==> toRemote == old(toRemote) && lostUp == old(lostUp) && !socket.CanSend()
      ensures old(socket.CanSend() && toRemote != []) && lostUp == old(lostUp) ==>
                clientToRemoteBytes > old(clientToRemoteBytes)
      ensures clientToRemoteBytes >= old(clientToRemoteBytes)
      ensures closeReason ==
              FirstReason(old(closeReason), if lostUp != old(lostUp) then Some(SEND_FAILED) else None)
    {
      hide Balanced, Noted;
      ghost var accepted, queue := socket.accepted, toRemote;
      var rest, written, failed, lost := SendOut(toRemote, socket);
      BalanceAfterWrite(client.input.taken, accepted, queue, lostUp, socket.accepted, rest, lost);
      toRemote, clientToRemoteBytes := rest, clientToRemoteBytes + written;
      lostUp := Noted(lostUp, |socket.accepted|, lost);
      if failed {
        MarkClosed(SEND_FAILED);
      }
    }

    /** The second loop. It may pass bytes by the queue, since the socket only takes bytes when the queue is empty. */
    method ForwardFromClient() returns (end: ReadSendEnd)
      requires ValidUp() && !localClosed && socksReplied && (toRemote == [] || !socket.CanSend())
      modifies this`toRemote, this`localClosed, this`clientToRemoteBytes, this`lostUp, client.input
      modifies socket`txFree, socket`faults, socket`accepted, socket`lastFailed
      modifies socket`shut, socket`maySend, socket`established
      ensures ValidUp() && old(lostUp) <= lostUp && (toRemote == [] || !socket.CanSend())
      ensures if end == Paused then socket.shut == old(socket.shut) && socket.maySend == old(socket.maySend)
              else socket.shut
      ensures socket.txFree + |socket.accepted| == old(socket.txFree + |socket.accepted|)
      ensures old(socket.CanSend()) ==>
                old(client.input.taken) + FirstRead(old(client.input.script), IO_BUFFER_SIZE) <= client.input.taken
      ensures old(client.input.taken) <= client.input.taken
      ensures client.input.taken <= old(client.input.taken) + Readable(old(client.input.script))
      ensures old(socket.faults) == [] ==> lostUp == old(lostUp) && socket.faults == []
      ensures localClosed <==> end == ClientClosed
      ensures lostUp != old(lostUp) <==> end == SendRefused
      ensures !old(socket.CanSend()) ==> end == Paused
      ensures end != Paused && lostUp == old(lostUp) ==>
                Ending(old(client.input.script)) == if localClosed then EndOfStream else ReadError
      ensures lostUp != old(lostUp) ==> socket.shut && socket.lastFailed && !localClosed
      ensures old(socket.shut) ==> socket.lastFailed == old(socket.lastFailed)
      ensures old(socket.shut) ==> socket.shut
      ensures !old(socket.CanSend()) ==>
                toRemote == old(toRemote) && lostUp == old(lostUp) && !localClosed && !socket.CanSend()
      ensures localClosed ==>
                && client.input.taken == old(client.input.taken) + Readable(old(client.input.script))
                && Ending(old(client.input.script)) == EndOfStream
      ensures socket.CanSend() ==>
                && client.input.taken == old(client.input.taken) + Readable(old(client.input.script))
                && Ending(old(client.input.script)) == NotYet
      ensures clientToRemoteBytes >= old(clientToRemoteBytes)
    {
      hide Balanced, Noted, Readable, Ending, FirstRead;
      ghost var accepted, taken, open := socket.accepted, client.input.taken, socket.CanSend();
      var rest, written;
      ghost var more, lost;
      rest, written, end, more, lost := ReadAndSend(client.input, socket);
      UpAfterForward(taken, accepted, toRemote, lostUp, more, socket.accepted, rest, lost, open);
      if open {
        PrefixAppend(taken, FirstRead(old(client.input.script), IO_BUFFER_SIZE), more);
      }
      PrefixAppend(taken, more, Readable(old(client.input.script)));
      toRemote, clientToRemoteBytes := toRemote + rest, clientToRemoteBytes + written;
      lostUp := Noted(lostUp, |socket.accepted|, lost);
      localClosed := end == ClientClosed;
    }

    /** The second loop with the reason it records. */
    method ForwardAndMark() returns (end: ReadSendEnd)
      requires ValidUp() && Reasoned() && !localClosed && socksReplied && (toRemote == [] || !socket.CanSend())
      modifies this`toRemote, this`localClosed, this`clientToRemoteBytes, this`closeReason, this`lostUp, client.input
      modifies socket`txFree, socket`faults, socket`accepted, socket`lastFailed
      modifies socket`shut, socket`maySend, socket`established
      ensures ValidUp() && Reasoned() && old(lostUp) <= lostUp && (toRemote == [] || !socket.CanSend())
      ensures if end == Paused then socket.shut == old(socket.shut) && socket.maySend == old(socket.maySend)
              else socket.shut
      ensures socket.txFree + |socket.accepted| == old(socket.txFree + |socket.accepted|)
      ensures old(socket.CanSend()) ==>
                old(client.input.taken) + FirstRead(old(client.input.script), IO_BUFFER_SIZE) <= client.input.taken
      ensures old(client.input.taken) <= client.input.taken
      ensures client.input.taken <= old(client.input.taken) + Readable(old(client.input.script))
      ensures old(socket.faults) == [] ==> lostUp == old(lostUp) && socket.faults == []
      ensures localClosed <==> end == ClientClosed
      ensures lostUp != old(lostUp) <==> end == SendRefused
      ensures !old(socket.CanSend()) ==> end == Paused
      ensures end != Paused && lostUp == old(lostUp) ==>
                Ending(old(client.input.script)) == if localClosed then EndOfStream else ReadError
      ensures lostUp != old(lostUp) ==> socket.shut && socket.lastFailed && !localClosed
      ensures old(socket.shut) ==> socket.lastFailed == old(socket.lastFailed)
      ensures old(socket.shut) ==> socket.shut
      ensures !old(socket.CanSend()) ==>
                toRemote == old(toRemote) && lostUp == old(lostUp) && !localClosed && !socket.CanSend()
      ensures localClosed ==>
                && client.input.taken == old(client.input.taken) + Readable(old(client.input.script))
                && Ending(old(client.input.script)) == EndOfStream
      ensures socket.CanSend() ==>
                && client.input.taken == old(client.input.taken) + Readable(old(client.input.script))
                && Ending(old(client.input.script)) == NotYet
      ensures clientToRemoteBytes >= old(clientToRemoteBytes)
      ensures closeReason == FirstReason(old(closeReason), EndReason(end))
    {
      hide Balanced, ValidUp, Readable, Ending, FirstRead;
      end := ForwardFromClient();
      if end != Paused {
        MarkClosed(if end == ClientClosed then CLIENT_CLOSED
                   else if end == ClientFailed then CLIENT_READ_FAILED else SEND_FAILED);
      }
    }

    /**
     * One round from the client to the TCP socket. It ends with the socket full or shut, or with everything the
     * client had to give passed on. Unlike a direct session, a client that closes has first had all it sent
     * taken over by the socket.
     */
    method PumpLocalToTcp()
      requires Valid()
      modifies this`toRemote, this`localClosed, this`clientToRemoteBytes, this`closeReason, this`lostUp, client.input
      modifies socket`txFree, socket`faults, socket`accepted, socket`lastFailed
      modifies socket`shut, socket`maySend, socket`established
      ensures Valid() && old(lostUp) <= lostUp && (old(localClosed) ==> localClosed)
      ensures old(localClosed || !socksReplied) ==> unchanged(this) && unchanged(client.input) && unchanged(socket)
      ensures old(!localClosed && socksReplied) && socket.CanSend() ==>
                && lostUp == old(lostUp) && toRemote == []
                && client.input.taken == old(client.input.taken) + Readable(old(client.input.script))
                && Ending(old(client.input.script)) == NotYet
      ensures localClosed && !old(localClosed) ==>
                && Ending(old(client.input.script)) == EndOfStream
                && client.input.taken == old(client.input.taken) + Readable(old(client.input.script))
                && (lostUp == [] ==> socket.accepted == client.input.taken)
      ensures socket.txFree + |socket.accepted| == old(socket.txFree + |socket.accepted|)
      ensures old(socket.faults) == [] ==> lostUp == old(lostUp)
      ensures socket.shut && !old(socket.shut) && lostUp == old(lostUp) ==>
                Ending(old(client.input.script)) == if localClosed then EndOfStream else ReadError
      ensures !socket.shut ==> socket.maySend == old(socket.maySend)
      ensures old(!localClosed && socksReplied && toRemote == [] && socket.CanSend()) ==>
                old(client.input.taken) + FirstRead(old(client.input.script), IO_BUFFER_SIZE) <= client.input.taken
      ensures client.input.taken <= old(client.input.taken) + Readable(old(client.input.script))
      ensures lostUp != old(lostUp) ==> socket.lastFailed
      ensures lostUp != old(lostUp) || old(socket.shut) ==> socket.shut
      ensures !old(socket.CanSend()) ==> toRemote == old(toRemote) && lostUp == old(lostUp)
      ensures old(!localClosed && socksReplied && socket.CanSend() && toRemote != []) && lostUp == old(lostUp) ==>
                clientToRemoteBytes > old(clientToRemoteBytes)
      ensures closeReason == FirstReason(
                old(closeReason),
                if lostUp != old(lostUp) then Some(SEND_FAILED)
                else if localClosed && !old(localClosed) then Some(CLIENT_CLOSED)
                else if socket.shut && !old(socket.shut) then Some(CLIENT_READ_FAILED) else None)
    {
      hide Balanced, ValidUp, ValidDown, Readable, Ending, FirstRead;
      PrefixAppend(client.input.taken, [], Readable(client.input.script));
      if localClosed || !socksReplied {
        return;
      }
      SendQueued();
      var end := ForwardAndMark();
      UpFacts();
    }

    /** The reply is written once, when the socket is found established; nothing of the payload moves. */
    method ReplyIfEstablished() returns (ok: bool)
      requires Valid()
      modifies `socksReplied, client.output
      ensures ok ==> Valid() && socksReplied == old(socksReplied || socket.established)
      ensures ok <==> old(Replying()).taken == |SOCKS_SUCCESS|
      ensures client.output.script == old(Replying()).script
    {
      hide DownFlow, Filling;
      ok := true;
      if !socksReplied && socket.established {
        ghost var accepted := client.output.accepted;
        ok := WriteAll(SOCKS_SUCCESS, client);
        if !ok {
          return;
        }
        DownAfterReply(socket.received, delivered, toClient, lostDown, early, accepted);
        socksReplied := true;
      }
    }

    /**
     * One round from the TCP socket to the client. Only the round that finds the socket established writes the
     * reply, before any payload of that round; payload that the client takes in a round that begins neither replied
     * nor established adds to what came early. Only a hard failure loses payload.
     */
    method PumpTcpToLocal() returns (ok: bool)
      requires Valid()
      modifies this`toClient, this`socksReplied, this`remoteToClientBytes, this`closeReason, this`lostDown
      modifies this`delivered, this`early, client.output
      modifies socket`incoming, socket`received, socket`shut, socket`maySend, socket`established
      ensures ok <==> old(Replying()).taken == |SOCKS_SUCCESS|
      ensures !ok ==> unchanged(socket) && early == old(early) && lostDown == old(lostDown)
      ensures ok ==> Valid() && socksReplied == old(socksReplied || socket.established)
      ensures ok ==> socket.incoming == [] && socket.received == old(socket.received) + old(socket.incoming)
      ensures ok ==> PaidOut(old(toClient + socket.incoming), old(delivered), old(lostDown), old(Paying()))
      ensures ok ==> early == if old(socksReplied || socket.established) then old(early) else delivered
      ensures ok ==> socket.shut == (old(socket.shut) || old(Paying()).end != Waiting)
      ensures ok ==>
                var reason := WriteReason(old(Paying()).end, CLIENT_TOOK_NOTHING, CLIENT_WRITE_FAILED);
                closeReason == FirstReason(old(closeReason), reason)
      ensures !socket.shut ==> socket.maySend == old(socket.maySend) && socket.established == old(socket.established)
    {
      hide DownFlow, Filling, WritingTo, ValidUp, ValidDown, Reasoned;
      ok := ReplyIfEstablished();
      if !ok {
        return;
      }
      ReceiveAll();
      WriteToClient();
    }

    method PollSocket(poll: Poll)
      requires Valid()
      modifies socket`txFree, socket`incoming, socket`maySend, socket`established, socket`active
      ensures Valid() && socket.incoming == old(socket.incoming) + poll.arrived
      ensures socket.txFree == old(socket.txFree) + poll.freed && socket.active == poll.active
      ensures socket.maySend == (poll.maySend && !socket.shut)
      ensures socket.established == (poll.established && !socket.shut)
    {
      hide Balanced, DownFlow;
      socket.Poll(poll.freed, poll.arrived, poll.maySend, poll.established, poll.active);
    }

    /** The receiving loop. */
    method ReceiveAll()
      requires ValidDown()
      modifies this`toClient, this`remoteToClientBytes, socket`incoming, socket`received
      ensures ValidDown() && socket.incoming == []
      ensures socket.received == old(socket.received) + old(socket.incoming)
      ensures toClient == old(toClient) + old(socket.incoming)
    {
      hide DownFlow;
      ghost var all, more := socket.incoming, [];
      AppendEmpty(toClient, more);
      AppendEmpty(socket.received, more);
      while true
        invariant ValidDown() && more + socket.incoming == all
        invariant socket.received == old(socket.received) + more && toClient == old(toClient) + more
        decreases |socket.incoming|
      {
        ghost var incoming := socket.incoming;
        ghost var received, queue := socket.received, toClient;
        var bytes := socket.Recv(IO_BUFFER_SIZE);
        if bytes == [] {
          AppendEmpty(received, bytes);
          break;
        }
        DownAfterRead(received, delivered, queue, lostDown, socksReplied, early,
                      client.output.accepted, bytes);
        AppendAssoc(more, bytes, socket.incoming);
        AppendAssoc(old(socket.received), more, bytes);
        AppendAssoc(old(toClient), more, bytes);
        more := more + bytes;
        remoteToClientBytes := remoteToClientBytes + |bytes|;
        toClient := toClient + bytes;
      }
      AppendEmpty(more, socket.incoming);
    }

    /** Of these bytes, some were delivered, then some dropped, and the rest is queued. */
    ghost predicate PaidOut(queue: seq<byte>, delivered: seq<byte>, lostDown: seq<Drop<byte>>, w: Written)
      reads `toClient, `delivered, `lostDown, client.output`script
    {
      && w.taken + w.dropped <= |queue|
      && this.delivered == delivered + queue[..w.taken]
      && this.lostDown == Noted(lostDown, |this.delivered|, queue[w.taken..w.taken + w.dropped])
      && toClient == queue[w.taken + w.dropped..] && client.output.script == w.script
    }

    /** The writing loop; what follows a failure in the loop is left to the caller. */
    method WriteQueue() returns (end: WriteEnd)
      requires ValidDown()
      modifies `toClient, `lostDown, `delivered, `early, client.output
      ensures ValidDown()
      ensures
        var w := WritingTo(client.writeShut, old(client.output.script), |old(toClient)|);
        PaidOut(old(toClient), old(delivered), old(lostDown), w) && end == w.end
      ensures early == if socksReplied then old(early) else delivered
    {
      hide DownFlow, Noted, WritingTo;
      var rest;
      ghost var accepted, written, out, lost := client.output.accepted, 0, [], [];
      rest, written, end, out, lost := WriteOut(toClient, client);
      CutOf(toClient, WritingTo(client.writeShut, old(client.output.script), |toClient|), out, lost, rest);
      DownAfterWrite(socket.received, delivered, toClient, lostDown, socksReplied, early, accepted, out, lost, rest);
      toClient, delivered := rest, delivered + out;
      lostDown, early := Noted(lostDown, |delivered|, lost), if socksReplied then early else delivered;
    }

    method WriteToClient()
      requires Valid()
      modifies `toClient, `closeReason, `lostDown, `delivered, `early, client.output
      modifies socket`shut, socket`maySend, socket`established
      ensures Valid()
      ensures
        var w := WritingTo(client.writeShut, old(client.output.script), |old(toClient)|);
        && PaidOut(old(toClient), old(delivered), old(lostDown), w)
        && socket.shut == (old(socket.shut) || w.end != Waiting)
        && closeReason == FirstReason(
             old(closeReason), WriteReason(w.end, CLIENT_TOOK_NOTHING, CLIENT_WRITE_FAILED))
      ensures early == if socksReplied then old(early) else delivered
      ensures !socket.shut ==> socket.maySend == old(socket.maySend) && socket.established == old(socket.established)
    {
      hide DownFlow, WritingTo, ValidUp, ValidDown, PaidOut;
      var end := WriteQueue();
      if end != Waiting {
        CloseSocket(if end == WroteNothing then CLIENT_TOOK_NOTHING else CLIENT_WRITE_FAILED);
      }
    }
  }

  /** Bytes passed by the queue keep their place, since the queue was empty; else none were. */
  lemma UpAfterForward(taken: seq<byte>, accepted: seq<byte>, queue: seq<byte>, drops: seq<Drop<byte>>,
                       more: seq<byte>, after: seq<byte>, rest: seq<byte>, lost: seq<byte>, open: bool)
    requires Balanced(taken, accepted, queue, drops) && |after| >= |accepted|
    requires if open then queue == [] && after + lost + rest == accepted + more
             else more == lost == rest == [] && after == accepted
    ensures Balanced(taken + more, after, queue + rest, Noted(drops, |after|, lost))
    ensures open ==> queue + rest == rest
    ensures !open ==> queue + rest == queue
  {
    hide Balanced, Noted;
    if open {
      assert queue + rest == rest && queue + more == more;
      BalanceAfterRead(taken, accepted, queue, drops, more);
      BalanceAfterWrite(taken + more, accepted, more, drops, after, rest, lost);
    } else {
      AppendEmpty(taken, more);
      AppendEmpty(queue, rest);
    }
  }


  // ---------- Whole runs ----------

  /** The network between two rounds. */
  datatype Poll = Poll(freed: nat, arrived: seq<byte>, maySend: bool, established: bool, active: bool)

  /**
   * Whether payload comes before the SOCKS reply, from what is queued, what the client's stream will take and what
   * the network does: some poll, before the first that finds the socket established, meets payload and a client
   * that takes it. A write that takes nothing or fails shuts the socket, which is then never found established.
   */
  predicate ComesEarly(n: nat, shut: bool, clientShut: bool, script: seq<WriteEvent>, polls: seq<Poll>)
    decreases |polls|
  {
    && polls != [] && !(polls[0].established && !shut)
    && var all := n + |polls[0].arrived|;
       var w := WritingTo(clientShut, script, all);
       || (all > 0 && !clientShut && Ready(script))
       || ComesEarly(all - w.dropped, shut || w.end != Waiting, clientShut, w.script, polls[1..])
  }

  ghost predicate WillComeEarly(s: ProxySession, polls: seq<Poll>)
    reads s`socksReplied, s`toClient, s.socket`incoming, s.socket`shut, s.client`writeShut, s.client.output`script
  {
    && !s.socksReplied
    && ComesEarly(|s.toClient + s.socket.incoming|, s.socket.shut, s.client.writeShut, s.client.output.script, polls)
  }

  /**
   * Whether payload is lost: some write, with the reply taken out of what the client's stream takes, meets a hard
   * failure. The reply is awaited until the socket was found established or was shut.
   */
  predicate LosesPayload(awaits: bool, n: nat, clientShut: bool, script: seq<WriteEvent>, polls: seq<Poll>)
    decreases |polls|
  {
    && polls != []
    && var replies := awaits && polls[0].established;
       var all := n + |polls[0].arrived|;
       var reply := if replies then Filling(clientShut, script, |SOCKS_SUCCESS|) else Filled(|SOCKS_SUCCESS|, script);
       && reply.taken == |SOCKS_SUCCESS|
       && var w := WritingTo(clientShut, reply.script, all);
          || w.end == FailedHard
          || LosesPayload(awaits && !replies && w.end == Waiting, all - w.taken - w.dropped,
                          clientShut, w.script, polls[1..])
  }

  ghost predicate WillLosePayload(s: ProxySession, polls: seq<Poll>)
    reads s`socksReplied, s`toClient, s.socket`incoming, s.socket`shut, s.client`writeShut, s.client.output`script
  {
    LosesPayload(!s.socksReplied && !s.socket.shut, |s.toClient + s.socket.incoming|,
                 s.client.writeShut, s.client.output.script, polls)
  }

  lemma EarlyIsAll(s: ProxySession)
    requires s.Valid()
    ensures !s.socksReplied ==> s.early == s.delivered
  {
    hide Balanced;
  }

  /** What the next round does about the reply and then about the payload, with that happening on the network. */
  ghost function ReplyIn(s: ProxySession, poll: Poll): Filled
    reads s`socksReplied, s.socket`shut, s.client`writeShut, s.client.output`script
  {
    if !s.socksReplied && poll.established && !s.socket.shut then
      Filling(s.client.writeShut, s.client.output.script, |SOCKS_SUCCESS|)
    else Filled(|SOCKS_SUCCESS|, s.client.output.script)
  }

  ghost function WriteIn(s: ProxySession, poll: Poll): Written
    reads s`socksReplied, s`toClient, s.socket`incoming, s.socket`shut, s.client`writeShut, s.client.output`script
  {
    WritingTo(s.client.writeShut, ReplyIn(s, poll).script, |s.toClient + s.socket.incoming| + |poll.arrived|)
  }

  /** One round, with what it leaves for the next. */
  method RunRound(session: ProxySession, poll: Poll) returns (ok: bool)
    requires session.Valid()
    modifies session, session.client.input, session.client.output, session.socket
    ensures ok <==> old(ReplyIn(session, poll)).taken == |SOCKS_SUCCESS|
    ensures ok ==> session.Valid() && session.client.output.script == old(WriteIn(session, poll)).script
    ensures ok ==> session.socksReplied == old(session.socksReplied || (poll.established && !session.socket.shut))
    ensures ok && !session.socksReplied ==>
              session.socket.shut == (old(session.socket.shut) || old(WriteIn(session, poll)).end != Waiting)
    ensures ok ==>
              |session.toClient + session.socket.incoming| ==
              |old(session.toClient + session.socket.incoming)| + |poll.arrived|
              - old(WriteIn(session, poll)).taken - old(WriteIn(session, poll)).dropped
    ensures old(session.early) <= session.early && old(session.lostDown) <= session.lostDown
    ensures session.early != old(session.early) <==>
            ok && !session.socksReplied && old(WriteIn(session, poll)).taken > 0
    ensures session.lostDown != old(session.lostDown) <==> ok && old(WriteIn(session, poll)).end == FailedHard
    ensures old(!session.localClosed && session.socksReplied && session.toRemote == [] && session.socket.CanSend()) &&
            FirstRead(old(session.client.input.script), IO_BUFFER_SIZE) != [] ==>
              session.client.input.taken != old(session.client.input.taken)
    ensures old(session.socket.shut) ==> session.socket.shut && session.toRemote == old(session.toRemote)
    ensures session.socket.active == poll.active
  {
    hide Balanced, DownFlow, WritingTo, Filling, FirstRead;
    hide ProxySession.ValidUp, ProxySession.ValidDown, ProxySession.Reasoned;
    EarlyIsAll(session);
    ShutIsClosed(session);
    AppendGrows(session.client.input.taken, FirstRead(session.client.input.script, IO_BUFFER_SIZE));
    session.PumpLocalToTcp();
    session.PollSocket(poll);
    ghost var all, w := session.toClient + session.socket.incoming, session.Paying();
    AppendGrows(session.delivered, all[..w.taken]);
    ok := session.PumpTcpToLocal();
  }

  lemma ShutIsClosed(s: ProxySession)
    requires s.Valid()
    ensures s.socket.shut ==> !s.socket.CanSend()
  {
    hide Balanced, DownFlow;
  }

  lemma LaterOrNow(s: ProxySession, polls: seq<Poll>)
    requires polls != []
    ensures ReplyIn(s, polls[0]).taken != |SOCKS_SUCCESS| ==> !WillComeEarly(s, polls) && !WillLosePayload(s, polls)
    ensures ReplyIn(s, polls[0]).taken == |SOCKS_SUCCESS| ==>
              var opens := polls[0].established && !s.socket.shut;
              var w := WriteIn(s, polls[0]);
              var left := |s.toClient + s.socket.incoming| + |polls[0].arrived| - w.taken - w.dropped;
              var shut := s.socket.shut || w.end != Waiting;
              && (WillComeEarly(s, polls) <==>
                  !s.socksReplied && !opens
                  && (w.taken > 0 || ComesEarly(left, shut, s.client.writeShut, w.script, polls[1..])))
              && (WillLosePayload(s, polls) <==>
                  || w.end == FailedHard
                  || LosesPayload(!s.socksReplied && !opens && !shut, left, s.client.writeShut, w.script, polls[1..]))
  {
    hide WritingTo, Filling;
    TakesIffReady(s.client.writeShut, s.client.output.script, |s.toClient + s.socket.incoming| + |polls[0].arrived|);
  }

  /**
   * The rounds of a session, with anything happening on the network before each is finished. Payload comes before
   * the SOCKS reply, and payload is lost, exactly when the queue, the client's stream and the polls say so beforehand.
   */
  method RunSession(session: ProxySession, polls: seq<Poll>) returns (ok: bool)
    requires session.Valid()
    modifies session, session.client.input, session.client.output, session.socket
    ensures ok ==> session.Valid()
    ensures session.early != old(session.early) <==> old(WillComeEarly(session, polls))
    ensures session.lostDown != old(session.lostDown) <==> old(WillLosePayload(session, polls))
  {
    hide ProxySession.Valid, ReplyIn, WriteIn;
    for i := 0 to |polls|
      invariant session.Valid() && old(session.early) <= session.early && old(session.lostDown) <= session.lostDown
      invariant old(WillLosePayload(session, polls)) <==>
                session.lostDown != old(session.lostDown) || WillLosePayload(session, polls[i..])
      invariant old(WillComeEarly(session, polls)) <==>
                session.early != old(session.early) || WillComeEarly(session, polls[i..])
    {
      LaterOrNow(session, polls[i..]);
      ok := RunRound(session, polls[i]);
      assert polls[i..][1..] == polls[i + 1..];
      if !ok {
        return;
      }
    }
    ok := true;
    NoPolls(session);
  }

  lemma NoPolls(s: ProxySession)
    ensures !WillComeEarly(s, []) && !WillLosePayload(s, [])
  {
  }

  /** Where the client sees the reply. */
  lemma ReplyPlace(s: ProxySession)
    requires s.Valid()
    ensures s.early <= s.delivered
    ensures s.client.output.accepted ==
            if s.socksReplied then s.early + SOCKS_SUCCESS + s.delivered[|s.early|..] else s.delivered
  {
    hide Balanced;
  }

  lemma TakesOne()
    ensures WritingTo(false, [Accept(1)], 1).taken == 1
  {
    assert Later([Accept(1)]) == [];
  }

  /** Payload that comes with the end of the connection, so that the socket is never seen established. */
  method PayloadWithoutReply() returns (session: ProxySession)
    ensures session.Valid() && !session.socksReplied && session.early != []
  {
    hide Balanced, DownFlow, Filling, WritingTo, Noted;
    hide ProxySession.ValidUp, ProxySession.ValidDown, ProxySession.Reasoned;
    TakesOne();
    var input := new ByteSource([]);
    var output := new ByteSink([Accept(1)]);
    var client := new TcpStream(input, output);
    var socket := new TcpSocket(1, []);
    session := new ProxySession(client, socket);
    session.PollSocket(Poll(0, [7], true, false, true));
    var _ := session.PumpTcpToLocal();
  }

  /**
   * Bytes that are still queued for a socket when it is shut, as a failed write to the client does, stay queued
   * through every later round, whatever the network does. Such a session can be removed exactly when nothing was
   * queued for the socket, once the socket is inactive and the client has all.
   */
  method QueuedForShutSocketStays(session: ProxySession, polls: seq<Poll>) returns (ok: bool)
    requires session.Valid() && session.socket.shut
    modifies session, session.client.input, session.client.output, session.socket
    ensures ok ==> session.Valid() && session.socket.shut && session.toRemote == old(session.toRemote)
    ensures ok ==>
              (Removable(session) <==> old(session.toRemote) == [] && !session.socket.active && session.toClient == [])
  {
    hide *;
    for i := 0 to |polls|
      invariant session.Valid() && session.socket.shut && session.toRemote == old(session.toRemote)
    {
      ok := RunRound(session, polls[i]);
      if !ok {
        return;
      }
    }
    ok := true;
    RemovableIff(session);
  }

  const TWO_BYTES: seq<ReadEvent> := [Chunk([1, 2])]
  const FAILS: seq<WriteEvent> := [WriteFailed(OtherIo)]

  lemma TakesReplyFirst()
    ensures Filling(false, [Accept(|SOCKS_SUCCESS|)] + FAILS, |SOCKS_SUCCESS|) == Filled(|SOCKS_SUCCESS|, FAILS)
  {
    assert Later([Accept(|SOCKS_SUCCESS|)] + FAILS) == FAILS;
  }

  /** A new session that has its reply; its client sends two bytes and will not take any. */
  method RepliedSession() returns (session: ProxySession)
    ensures session.Valid() && session.socksReplied && !session.localClosed && !session.socket.shut
    ensures session.toRemote == [] && session.client.input.taken == [] && session.client.input.script == TWO_BYTES
    ensures session.lostUp == [] && session.socket.faults == [] && session.socket.maySend && session.socket.txFree == 1
    ensures !session.client.writeShut && session.client.output.script == FAILS
    ensures fresh(session) && fresh(session.client.input) && fresh(session.client.output) && fresh(session.socket)
  {
    hide Balanced, DownFlow, Filling, WritingTo, Readable, Ending, FirstRead;
    hide ProxySession.ValidUp, ProxySession.ValidDown, ProxySession.Reasoned, Noted;
    TakesReplyFirst();
    NothingToWrite(false, FAILS);
    var input := new ByteSource(TWO_BYTES);
    var output := new ByteSink([Accept(|SOCKS_SUCCESS|)] + FAILS);
    var client := new TcpStream(input, output);
    var socket := new TcpSocket(1, []);
    session := new ProxySession(client, socket);
    session.PollSocket(Poll(0, [], true, true, true));
    var ok := session.PumpTcpToLocal();
  }

  lemma UpSizes(s: ProxySession)
    requires s.Valid() && s.lostUp == []
    ensures |s.socket.accepted| + |s.toRemote| == |s.client.input.taken|
    ensures s.socket.accepted + s.toRemote == s.client.input.taken
  {
    IntactIff(s.client.input.taken, s.socket.accepted, s.toRemote, s.lostUp);
  }

  lemma ReadsTwo()
    ensures FirstRead(TWO_BYTES, IO_BUFFER_SIZE) == [1, 2] && Ending(TWO_BYTES) == NotYet
    ensures [] + FirstRead(TWO_BYTES, IO_BUFFER_SIZE) == [1, 2] && [] + Readable(TWO_BYTES) == [1, 2]
  {
    assert TWO_BYTES[1..] == [];
  }

  lemma FailsAtOnce(n: nat)
    ensures n > 0 ==> WritingTo(false, FAILS, n).end == FailedHard
  {
  }

  /** The second byte of two is queued when the socket took one. */
  method OneOfTwo(session: ProxySession)
    requires session.Valid() && session.socksReplied && !session.localClosed && !session.socket.shut
    requires session.toRemote == [] && session.client.input.taken == [] && session.client.input.script == TWO_BYTES
    requires session.lostUp == [] && session.socket.faults == [] && session.socket.maySend && session.socket.txFree == 1
    modifies session, session.client.input, session.socket
    ensures session.Valid() && session.toRemote == [2] && session.socksReplied && !session.socket.shut
  {
    hide Balanced, DownFlow, ProxySession.Valid, Readable, Ending, FirstRead;
    ReadsTwo();
    UpSizes(session);
    session.PumpLocalToTcp();
    UpSizes(session);
    assert session.client.input.taken == [1, 2];
    assert !session.socket.shut && session.socket.maySend;
    assert |session.socket.accepted| == 1;
    assert session.toRemote == (session.socket.accepted + session.toRemote)[1..] == [2];
  }

  /**
   * A session gets there: the socket takes one of the client's two bytes, then a write to the client fails hard.
   */
  method QueuedForShutSocketIsReached() returns (session: ProxySession)
    ensures session.Valid() && session.socket.shut && session.toRemote == [2]
  {
    hide Balanced, DownFlow, ProxySession.Valid, WritingTo;
    session := RepliedSession();
    OneOfTwo(session);
    session.PollSocket(Poll(0, [7], true, true, true));
    FailsAtOnce(|session.toClient + session.socket.incoming|);
    var ok := session.PumpTcpToLocal();
  }

  // ---------- Cleanup ----------

  /** The flags of a session do not matter: an inactive socket counts as closed by the remote. */
  predicate Removable(s: ProxySession)
    reads s`toClient, s`toRemote, s.socket`active
  {
    !s.socket.active && s.toClient == [] && s.toRemote == []
  }

  lemma RemovableIff(s: ProxySession)
    ensures Removable(s) <==> s.toRemote == [] && !s.socket.active && s.toClient == []
  {
  }

  ghost function RemovableOf(sessions: seq<ProxySession>): set<ProxySession>
    reads sessions, set s | s in sessions :: s.socket
  {
    set s | s in sessions && Removable(s)
  }

  predicate Marked(s: ProxySession, wasClosed: bool, reason: Option<string>)
    reads s`remoteClosed, s`closeReason, s.socket`active
  {
    && s.remoteClosed == (wasClosed || !s.socket.active)
    && s.closeReason == if s.remoteClosed && !wasClosed && reason.None? then Some("remote TCP closed") else reason
  }

  ghost predicate Distinct(sessions: seq<ProxySession>) {
    forall i, j :: 0 <= i < j < |sessions| ==> sessions[i] != sessions[j]
  }

  /** The sessions closed by the remote are marked, and exactly the removable ones go; their sockets are released. */
  method CleanupSessions(sessions: seq<ProxySession>) returns (kept: seq<ProxySession>, released: seq<ProxySession>)
    requires Distinct(sessions)
    modifies sessions`remoteClosed, sessions`closeReason
    ensures kept == Without(sessions, old(RemovableOf(sessions)))
    ensures released == Within(sessions, old(RemovableOf(sessions)))
    ensures forall j :: 0 <= j < |sessions| ==>
              Marked(sessions[j], old(sessions[j].remoteClosed), old(sessions[j].closeReason))
  {
    hide Cleaned;
    kept, released := sessions, [];
    var index := 0;
    ghost var seen, gone := 0, RemovableOf(sessions);
    CleanupStarts(sessions, gone);
    while index < |kept|
      invariant seen <= |sessions| && index <= |kept|
      invariant Cleaned(sessions, gone, seen, kept, index, released)
      invariant forall j :: 0 <= j < seen ==>
                  Marked(sessions[j], old(sessions[j].remoteClosed), old(sessions[j].closeReason))
      invariant forall j :: seen <= j < |sessions| ==>
                  && sessions[j].remoteClosed == old(sessions[j].remoteClosed)
                  && sessions[j].closeReason == old(sessions[j].closeReason)
      decreases |kept| - index
    {
      CleanedStep(sessions, gone, seen, kept, index, released);
      var s := kept[index];
      var active := s.socket.active;
      if !active && !s.remoteClosed {
        s.remoteClosed := true;
        s.MarkClosed("remote TCP closed");
      }
      var remove := (s.localClosed || s.remoteClosed) && s.toClient == [] && s.toRemote == [] && !active;
      assert remove <==> s in gone;
      if remove {
        kept, released := kept[..index] + kept[index + 1..], released + [s];
      } else {
        index := index + 1;
      }
      seen := seen + 1;
    }
    CleanedEnds(sessions, gone, seen, kept, released);
  }

  /** Marking leaves no closed session without a reason. */
  lemma MarkedIsReasoned(s: ProxySession, wasClosed: bool, reason: Option<string>)
    requires Marked(s, wasClosed, reason) && (wasClosed || s.socket.shut ==> reason.Some?)
    ensures s.Reasoned() && (Removable(s) ==> s.remoteClosed)
  {
  }

  /**
   * At removal the socket had taken over all the client sent, and the client all the socket received, exactly
   * when nothing was dropped on that way.
   */
  lemma RemovedSessionsDelivered(s: ProxySession)
    requires s.Valid() && Removable(s) && s.remoteClosed
    ensures s.closeReason.Some?
    ensures s.socket.accepted == s.client.input.taken <==> s.lostUp == []
    ensures s.delivered == s.socket.received <==> s.lostDown == []
    ensures s.clientToRemoteBytes + DroppedBytes(s.lostUp) == |s.client.input.taken|
    ensures s.remoteToClientBytes == |s.delivered| + DroppedBytes(s.lostDown)
    ensures s.socksReplied && s.early == [] ==> s.client.output.accepted == SOCKS_SUCCESS + s.delivered
  {
    IntactIff(s.client.input.taken, s.socket.accepted, s.toRemote, s.lostUp);
    IntactIff(s.socket.received, s.delivered, s.toClient, s.lostDown);
    AppendEmpty(s.socket.accepted, s.toRemote);
    AppendEmpty(s.delivered, s.toClient);
  }
}