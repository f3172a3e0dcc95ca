/**
 * The forwarding loop between pppd's pty and the TLS tunnel. The invariant of the whole loop says, for either
 * direction, which packets the bytes read so far stand for and that the bytes written, followed by the bytes
 * still queued, are exactly the encodings of those packets in order.
 */
module Forward {
  import opened Bytes
  import opened Hdlc
  import opened Deframing
  import opened IpcpOptions
  import opened Packets
  import opened Io
  import opened WriteQueues
  import P = PtyDecoder
  import T = TlsFraming

  const IO_BUFFER_SIZE: nat := 4096
  const PTY_CLOSED: Error := Pppd("pppd pty closed")
  const TLS_CLOSED: Error := Pppd("TLS tunnel closed")

  // ---------- The address callback ----------

  /** The addresses found in a list of packets, in order. */
  function Addresses(packets: seq<Packet>): seq<Ipv4Addr> {
    if packets == [] then []
    else
      var address := IpcpAddress(packets[|packets| - 1]);
      Addresses(packets[..|packets| - 1]) + (if address.Some? then [address.value] else [])
  }

  function LastOf(s: seq<Ipv4Addr>): Option<Ipv4Addr> {
    if s == [] then None else Some(s[|s| - 1])
  }

  /** Consecutive repeats removed. */
  function Changes(s: seq<Ipv4Addr>): seq<Ipv4Addr> {
    if s == [] then []
    else
      Changes(s[..|s| - 1])
      + (if LastOf(s[..|s| - 1]) == Some(s[|s| - 1]) then [] else [s[|s| - 1]])
  }

  /** The addresses are found packet by packet. */
  lemma AddressesSnoc(packets: seq<Packet>, p: Packet)
    ensures Addresses(packets + [p]) ==
            Addresses(packets) + (if IpcpAddress(p).Some? then [IpcpAddress(p).value] else [])
  {
    hide IpcpAddress;
    assert (packets + [p])[..|packets|] == packets;
  }

  lemma ChangesSnoc(s: seq<Ipv4Addr>, a: Ipv4Addr)
    ensures Changes(s + [a]) == Changes(s) + (if LastOf(s) == Some(a) then [] else [a])
    ensures LastOf(s + [a]) == Some(a)
  {
    assert (s + [a])[..|s|] == s;
  }

  /** One list is the other with each element standing there one time or more in a row. */
  predicate Stutters(s: seq<Ipv4Addr>, c: seq<Ipv4Addr>) {
    if s == [] || c == [] then s == [] && c == []
    else
      && s[|s| - 1] == c[|c| - 1]
      && (Stutters(s[..|s| - 1], c) || Stutters(s[..|s| - 1], c[..|c| - 1]))
  }

  /** The changes are the list without its repeats: no two neighbours are equal, and the list stutters on them. */
  lemma {:induction false} ChangesAre(s: seq<Ipv4Addr>)
    ensures Stutters(s, Changes(s)) && LastOf(Changes(s)) == LastOf(s)
    ensures forall i :: 0 < i < |Changes(s)| ==> Changes(s)[i - 1] != Changes(s)[i]
  {
    if s != [] {
      var init, last := s[..|s| - 1], s[|s| - 1];
      ChangesAre(init);
      if LastOf(init) == Some(last) {
        assert Changes(s) == Changes(init);
      } else {
        assert Changes(s) == Changes(init) + [last] && Changes(s)[..|Changes(init)|] == Changes(init);
      }
    }
  }

  lemma EncodeStreamSnoc(packets: seq<Packet>, p: Packet)
    ensures P.EncodeStream(packets + [p]) == P.EncodeStream(packets) + EncodeFrame(packets == [], p)
  {
    hide EncodeFrame;
    assert (packets + [p])[..|packets|] == packets;
  }

  /** What poll reported for the two descriptors; `stop` if it was an error, or the caller asked to stop. */
  datatype Poll = Poll(ptyIn: bool, tlsIn: bool, ptyOut: bool, tlsOut: bool, stop: bool)

  /**
   * Bytes from the pty that cannot be passed on: a frame does not decode, a packet is too long for TLS, or the
   * bytes of the last read were too many on top of those kept.
   */
  ghost predicate Unforwardable(s: seq<byte>) {
    || P.DecodeAll(Deframe(s).frames).Err?
    || (exists p :: p in P.DecodeAll(Deframe(s).frames).value && |p| > MAX_DATA)
    || (exists k :: 0 <= k <= |s| <= k + IO_BUFFER_SIZE && |Deframe(s[..k]).tail| + |s| - k > P.MAX_PTY_BUFFER)
  }

  lemma RefusedIsUnforwardable(s: seq<byte>, bytes: seq<byte>)
    requires P.DecodeAll(Deframe(s).frames).Ok? && P.Push(Deframe(s).tail, bytes).result.Err?
    requires |bytes| <= IO_BUFFER_SIZE
    ensures Unforwardable(s + bytes)
  {
    hide Deframe, P.DecodeAll, P.Push;
    P.PushOnTail(s, bytes);
    assert (s + bytes)[..|s|] == s;
  }

  lemma LongIsUnforwardable(s: seq<byte>, up: seq<Packet>, packets: seq<Packet>)
    requires P.DecodeAll(Deframe(s).frames) == Ok(up + packets) && exists p :: p in packets && |p| > MAX_DATA
    ensures Unforwardable(s)
  {
    hide Deframe, P.DecodeAll;
    var p :| p in packets && |p| > MAX_DATA;
    assert p in up + packets;
  }

  lemma DecodedOfMore(s: seq<byte>, bytes: seq<byte>)
    ensures P.Decoded(Deframe(s).frames) <= P.Decoded(Deframe(s + bytes).frames)
    ensures P.DecodeAll(Deframe(s + bytes).frames).Ok? ==>
              P.Decoded(Deframe(s + bytes).frames) == P.DecodeAll(Deframe(s + bytes).frames).value
  {
    hide P.Decoded, P.DecodeAll, Deframe;
    ResumeFromTail(s, bytes);
    P.DecodedGrows(Deframe(s).frames, Deframe(Deframe(s).tail + bytes).frames);
    P.DecodedIsAll(Deframe(s + bytes).frames);
  }

  lemma PushedAreNonEmpty(buffer: seq<byte>, bytes: seq<byte>)
    ensures P.Push(buffer, bytes).result.Ok? ==> P.NonEmpty(P.Push(buffer, bytes).result.value)
  {
    hide P.DecodeAll, Deframe;
    P.DecodedAreNonEmpty(Deframe(buffer + bytes).frames);
    var r := P.Push(buffer, bytes).result;
    assert r.Ok? ==> forall i :: 0 <= i < |r.value| ==> r.value[i] in r.value;
  }

  /** No part of a stream of encoded packets is refused, if a stuffed packet and one read fit the buffer. */
  lemma EncodedIsForwardable(packets: seq<Packet>, limit: nat, k: nat)
    requires P.NonEmpty(packets) && P.AllAtMost(packets, limit)
    requires 2 * limit + 8 + IO_BUFFER_SIZE <= P.MAX_PTY_BUFFER
    requires k <= |P.EncodeStream(packets)|
    ensures !Unforwardable(P.EncodeStream(packets)[..k])
  {
    hide P.DecodeAll, P.EncodeStream, Deframe;
    var stream := P.EncodeStream(packets);
    var s := stream[..k];
    assert s + stream[k..] == stream;
    WrittenIsDecodable(s, stream[k..], packets);
    forall p | p in P.DecodeAll(Deframe(s).frames).value ensures |p| <= MAX_DATA {
      assert p in packets;
    }
    forall j | 0 <= j <= k <= j + IO_BUFFER_SIZE
      ensures |Deframe(s[..j]).tail| + k - j <= P.MAX_PTY_BUFFER
    {
      assert s[..j] == stream[..j];
      P.TailBound(packets, limit, j);
    }
  }

  /** The error that the latest read amounts to, if it does. */
  function EndOf(event: ReadEvent, closed: Error): Option<Error> {
    match event
    case Chunk(bytes) => if bytes == [] then Some(closed) else None
    case ReadFailed(kind) => if kind == WouldBlock then None else Some(Error.Io(kind))
  }

  /** Packets that fit into a TLS frame and are not empty. */
  ghost predicate AllSendable(packets: seq<Packet>) {
    forall p :: p in packets ==> T.Sendable(p)
  }

  lemma AllSendableSnoc(packets: seq<Packet>, p: Packet)
    requires AllSendable(packets) && T.Sendable(p)
    ensures AllSendable(packets + [p])
  {
  }

  /** What the streams stand for before anything was read or written. */
  lemma NothingRead()
    ensures T.ParseEager([]) == T.Parsed([], [], None) && T.TlsStream([]) == [] && P.EncodeStream([]) == []
    ensures Deframe([]).frames == [] && Deframe([]).tail == [] && P.DecodeAll([]) == Ok([]) && P.Decoded([]) == []
    ensures Addresses([]) == [] && Changes([]) == [] && LastOf([]) == None
  {
    T.EmptyNeedsMore();
  }

  class Forwarder {
    const pty: ByteSource
    const ptySink: ByteSink
    const tls: ByteSource
    const tlsSink: ByteSink
    const ptyDecoder: P.PppdPtyDecoder
    const hdlcEncoder: HdlcCodec
    const tlsDecoder: T.TlsPacketStreamDecoder
    const tlsOut: WriteQueue
    const ptyOut: WriteQueue
    var ptyToTlsPackets: nat
    var tlsToPtyPackets: nat
    var lastIpcpIpv4: Option<Ipv4Addr>
    /** The calls made to the address callback. */
    var callbacks: seq<Ipv4Addr>
    /** The packets queued for TLS and for the pty so far. */
    ghost var up: seq<Packet>
    ghost var down: seq<Packet>
    ghost var rounds: nat

    ghost predicate Separate() {
      pty != tls && ptySink != tlsSink && tlsOut != ptyOut
    }

    /** Bytes written to TLS, then bytes queued for it: the frames of the packets queued so far. */
    ghost predicate UpConserved()
      reads this`up, this`ptyToTlsPackets, tlsOut, tlsSink
    {
      && tlsOut.Valid()
      && tlsSink.accepted + tlsOut.Pending() == T.TlsStream(up)
      && ptyToTlsPackets == |up| && AllSendable(up)
    }

    /** Each of them is one of those that the bytes read from the pty stand for, in that order. */
    ghost predicate UpTraced()
      reads this`up, pty
    {
      up <= P.Decoded(Deframe(pty.taken).frames)
    }

    /** They are all of those, and what the decoder keeps decides the rest. */
    ghost predicate UpComplete()
      reads this`up, pty, ptyDecoder
    {
      && P.DecodeAll(Deframe(pty.taken).frames) == Ok(up)
      && ptyDecoder.buffer == Deframe(pty.taken).tail
    }

    ghost predicate DownConserved()
      reads this`down, this`tlsToPtyPackets, this`lastIpcpIpv4, this`callbacks, ptyOut, ptySink, hdlcEncoder
    {
      && ptyOut.Valid()
      && ptySink.accepted + ptyOut.Pending() == P.EncodeStream(down)
      && hdlcEncoder.needFlagSequence == (down == [])
      && tlsToPtyPackets == |down| && P.NonEmpty(down)
      && callbacks == Changes(Addresses(down)) && lastIpcpIpv4 == LastOf(Addresses(down))
    }

    ghost predicate DownTraced()
      reads this`down, tls
    {
      down <= T.ParseEager(tls.taken).packets
    }

    ghost predicate DownComplete()
      reads this`down, tls, tlsDecoder
    {
      T.ParseEager(tls.taken) == T.Parsed(down, tlsDecoder.buffer, None)
    }

    /** What holds of the loop at every moment, also after it ended in an error. */
    ghost predicate Conserved()
      reads this, pty, tls, tlsOut, tlsSink, ptyOut, ptySink, hdlcEncoder
    {
      Separate() && UpConserved() && DownConserved() && UpTraced() && DownTraced()
    }

    /** What holds besides between two rounds. */
    ghost predicate Valid()
      reads this, pty, tls, ptyDecoder, tlsDecoder, tlsOut, tlsSink, ptyOut, ptySink, hdlcEncoder
    {
      Conserved() && UpComplete() && DownComplete()
    }

    lemma UpCompleteIsTraced()
      ensures UpComplete() ==> UpTraced()
    {
      hide P.DecodeAll, P.Decoded, Deframe;
      P.DecodedIsAll(Deframe(pty.taken).frames);
    }

    constructor (pty: ByteSource, ptySink: ByteSink, tls: ByteSource, tlsSink: ByteSink)
      requires pty != tls && ptySink != tlsSink
      requires pty.taken == [] && tls.taken == [] && ptySink.accepted == [] && tlsSink.accepted == []
      ensures Valid() && up == [] && down == []
      ensures this.pty == pty && this.ptySink == ptySink && this.tls == tls && this.tlsSink == tlsSink
      ensures fresh(ptyDecoder) && fresh(hdlcEncoder) && fresh(tlsDecoder) && fresh(tlsOut) && fresh(ptyOut)
    {
      this.pty, this.ptySink, this.tls, this.tlsSink := pty, ptySink, tls, tlsSink;
      ptyDecoder := new P.PppdPtyDecoder();
      hdlcEncoder := new HdlcCodec();
      tlsDecoder := new T.TlsPacketStreamDecoder();
      tlsOut := new WriteQueue();
      ptyOut := new WriteQueue();
      ptyToTlsPackets, tlsToPtyPackets, lastIpcpIpv4, callbacks := 0, 0, None, [];
      up, down, rounds := [], [], 0;
      new;
      hide UpConserved, DownConserved, UpComplete, DownComplete, UpTraced, DownTraced;
      hide WriteQueue.Valid, WriteQueue.Pending;
      StartsUp();
      StartsDown();
    }

    lemma StartsUp()
      requires pty.taken == [] && tlsSink.accepted == [] && ptyDecoder.buffer == []
      requires tlsOut.Valid() && tlsOut.Pending() == [] && up == [] && ptyToTlsPackets == 0
      ensures UpConserved() && UpTraced() && UpComplete()
    {
      hide WriteQueue.Valid, WriteQueue.Pending, T.TlsStream, P.DecodeAll, P.Decoded, Deframe;
      NothingRead();
    }

    lemma StartsDown()
      requires tls.taken == [] && ptySink.accepted == [] && tlsDecoder.buffer == [] && hdlcEncoder.needFlagSequence
      requires ptyOut.Valid() && ptyOut.Pending() == [] && down == [] && tlsToPtyPackets == 0
      requires callbacks == [] && lastIpcpIpv4 == None
      ensures DownConserved() && DownTraced() && DownComplete()
    {
      hide WriteQueue.Valid, WriteQueue.Pending, T.ParseEager, P.EncodeStream, Changes, Addresses, LastOf;
      NothingRead();
    }

    /** The body of the packet loop for one chunk from the pty. */
    method QueueForTls(packets: seq<Packet>) returns (error: Option<Error>)
      requires UpConserved() && P.NonEmpty(packets)
      modifies this`up, this`ptyToTlsPackets, tlsOut
      ensures UpConserved()
      ensures error.None? ==> up == old(up) + packets
      ensures old(tlsOut.chunks) <= tlsOut.chunks
      ensures error.Some? ==> error == Some(HdlcInvalidFrame) && old(up) <= up <= old(up) + packets
      ensures error.Some? ==> exists p :: p in packets && |p| > MAX_DATA
    {
      hide T.TlsStream, FrameOf, AllSendable;
      for i := 0 to |packets|
        invariant UpConserved() && up == old(up) + packets[..i] && old(tlsOut.chunks) <= tlsOut.chunks
      {
        var encoded := EncodeForTls(packets[i]);
        if encoded.Err? {
          assert packets[i] in packets;
          return Some(encoded.error);
        }
        ghost var written, queued := tlsSink.accepted, tlsOut.Pending();
        tlsOut.Push(encoded.value);
        ptyToTlsPackets := ptyToTlsPackets + 1;
        AppendAssoc(written, queued, encoded.value);
        T.TlsStreamSnoc(up, packets[i]);
        AllSendableSnoc(up, packets[i]);
        up := up + [packets[i]];
        assert packets[..i] + [packets[i]] == packets[..i + 1];
      }
      assert packets[..|packets|] == packets;
      return None;
    }

    method ReadPtyIntoTlsQueue() returns (error: Option<Error>)
      requires UpConserved() && UpComplete()
      modifies this`up, this`ptyToTlsPackets, pty, ptyDecoder, tlsOut
      ensures UpConserved() && UpTraced()
      ensures error.None? || error.value.Io? || error == Some(PTY_CLOSED) ==>
                UpComplete() && pty.taken == old(pty.taken) + Readable(old(pty.script))
      ensures error.None? ==> Ending(old(pty.script)) == NotYet && EndOf(pty.last, PTY_CLOSED).None?
      ensures error.Some? && (error.value.Io? || error == Some(PTY_CLOSED)) ==> error == EndOf(pty.last, PTY_CLOSED)
      ensures error == Some(PTY_CLOSED) ==> Ending(old(pty.script)) == EndOfStream
      ensures error.Some? && error.value.Io? ==> Ending(old(pty.script)) == ReadError
      ensures error.Some? && !error.value.Io? && error != Some(PTY_CLOSED) ==> Unforwardable(pty.taken)
      ensures old(up) <= up && old(tlsOut.chunks) <= tlsOut.chunks
    {
      hide Deframe, P.DecodeAll, P.Decoded, P.NonEmpty, T.TlsStream, Readable, Ending, Unforwardable, AllSendable;
      ghost var all := pty.taken + Readable(pty.script);
      while true
        invariant UpConserved() && UpComplete() && old(up) <= up && old(tlsOut.chunks) <= tlsOut.chunks
        invariant pty.taken + Readable(pty.script) == all && Ending(pty.script) == Ending(old(pty.script))
        decreases ByteSource.Weight(pty.script)
      {
        UpCompleteIsTraced();
        ghost var s := pty.taken;
        assert s + [] == s;
        var event := pty.Read(IO_BUFFER_SIZE);
        match event
        case ReadFailed(kind) =>
          if kind == WouldBlock {
            return None;
          }
          return Some(Error.Io(kind));
        case Chunk(bytes) =>
          if bytes == [] {
            assert pty.taken == s;
            return Some(PTY_CLOSED);
          }
          AppendAssoc(s, bytes, Readable(pty.script));
          var packets := ptyDecoder.PushBytes(bytes);
          P.PushOnTail(s, bytes);
          DecodedOfMore(s, bytes);
          if packets.Err? {
            RefusedIsUnforwardable(s, bytes);
            PushErrors(Deframe(s).tail, bytes);
            return Some(packets.error);
          }
          ghost var before := up;
          PushedAreNonEmpty(Deframe(s).tail, bytes);
          error := QueueForTls(packets.value);
          if error.Some? {
            LongIsUnforwardable(pty.taken, before, packets.value);
            return error;
          }
      }
    }

    /** The callback is called for an address that differs from the one before. */
    method NoteAddress(p: Packet, ghost before: seq<Packet>)
      requires callbacks == Changes(Addresses(before)) && lastIpcpIpv4 == LastOf(Addresses(before))
      modifies this`lastIpcpIpv4, this`callbacks
      ensures callbacks == Changes(Addresses(before + [p])) && lastIpcpIpv4 == LastOf(Addresses(before + [p]))
    {
      hide IpcpAddress, Addresses, Changes, LastOf;
      AddressesSnoc(before, p);
      AppendEmpty(Addresses(before), []);
      AppendEmpty(callbacks, []);
      var address := IpcpIpv4Address(p);
      if address.Some? {
        ChangesSnoc(Addresses(before), address.value);
        if lastIpcpIpv4 != Some(address.value) {
          callbacks := callbacks + [address.value];
        }
        lastIpcpIpv4 := Some(address.value);
      }
    }

    /** The body of the packet loop for one chunk from TLS. */
    method QueueForPty(packets: seq<Packet>)
      requires DownConserved() && P.NonEmpty(packets)
      modifies this`down, this`tlsToPtyPackets, this`lastIpcpIpv4, this`callbacks, ptyOut, hdlcEncoder
      ensures DownConserved() && down == old(down) + packets && old(ptyOut.chunks) <= ptyOut.chunks
    {
      hide P.EncodeStream, EncodeFrame, Addresses, Changes, LastOf;
      for i := 0 to |packets|
        invariant DownConserved() && down == old(down) + packets[..i] && old(ptyOut.chunks) <= ptyOut.chunks
      {
        var p := packets[i];
        NoteAddress(p, down);
        ghost var written, queued := ptySink.accepted, ptyOut.Pending();
        var frame := hdlcEncoder.Encode(p);
        ptyOut.Push(frame);
        tlsToPtyPackets := tlsToPtyPackets + 1;
        AppendAssoc(written, queued, frame);
        EncodeStreamSnoc(down, p);
        down := down + [p];
        assert packets[..i] + [p] == packets[..i + 1];
      }
      assert packets[..|packets|] == packets;
    }

    method ReadTlsIntoPtyQueue() returns (error: Option<Error>)
      requires DownConserved() && DownComplete()
      modifies this`down, this`tlsToPtyPackets, this`lastIpcpIpv4, this`callbacks, tls, tlsDecoder, ptyOut, hdlcEncoder
      ensures DownConserved() && DownTraced()
      ensures error.None? || error.value.Io? || error == Some(TLS_CLOSED) ==>
                DownComplete() && tls.taken == old(tls.taken) + Readable(old(tls.script))
      ensures error.None? ==> Ending(old(tls.script)) == NotYet && EndOf(tls.last, TLS_CLOSED).None?
      ensures error.Some? && (error.value.Io? || error == Some(TLS_CLOSED)) ==> error == EndOf(tls.last, TLS_CLOSED)
      ensures error == Some(TLS_CLOSED) ==> Ending(old(tls.script)) == EndOfStream
      ensures error.Some? && error.value.Io? ==> Ending(old(tls.script)) == ReadError
      ensures error.Some? && !error.value.Io? && error != Some(TLS_CLOSED) ==>
                T.ParseEager(tls.taken).error == error
      ensures old(down) <= down && old(ptyOut.chunks) <= ptyOut.chunks
    {
      hide T.ParseEager, P.EncodeStream, P.NonEmpty, Addresses, Changes, LastOf, Readable, Ending;
      ghost var all := tls.taken + Readable(tls.script);
      while true
        invariant DownConserved() && DownComplete() && old(down) <= down && old(ptyOut.chunks) <= ptyOut.chunks
        invariant tls.taken + Readable(tls.script) == all && Ending(tls.script) == Ending(old(tls.script))
        decreases ByteSource.Weight(tls.script)
      {
        ghost var s := tls.taken;
        assert s + [] == s;
        var event := tls.Read(IO_BUFFER_SIZE);
        match event
        case ReadFailed(kind) =>
          if kind == WouldBlock {
            return None;
          }
          return Some(Error.Io(kind));
        case Chunk(bytes) =>
          if bytes == [] {
            assert tls.taken == s;
            return Some(TLS_CLOSED);
          }
          AppendAssoc(s, bytes, Readable(tls.script));
          ghost var kept := tlsDecoder.buffer;
          var packets := tlsDecoder.PushBytes(bytes);
          T.ParseResumes(s, bytes);
          if packets.Err? {
            ParseErrors(kept + bytes);
            return Some(packets.error);
          }
          ParsedAreNonEmpty(kept + bytes);
          QueueForPty(packets.value);
      }
    }

    method WritePty() returns (error: Option<Error>)
      requires DownConserved()
      modifies ptyOut, ptySink
      ensures DownConserved()
      ensures error == if old(ptyOut.chunks) == [] then None else ErrorOf(ptySink.last)
      ensures error.Some? ==> ptyOut.chunks != []
      ensures old(ptyOut.chunks != [] && Ready(ptySink.script)) ==> |ptySink.accepted| > |old(ptySink.accepted)|
    {
      hide Changes, Addresses, P.EncodeStream, Ready;
      error := ptyOut.WriteAvailable(ptySink);
    }

    method WriteTls() returns (error: Option<Error>)
      requires UpConserved()
      modifies tlsOut, tlsSink
      ensures UpConserved()
      ensures error == if old(tlsOut.chunks) == [] then None else ErrorOf(tlsSink.last)
      ensures error.Some? ==> tlsOut.chunks != []
      ensures old(tlsOut.chunks != [] && Ready(tlsSink.script)) ==> |tlsSink.accepted| > |old(tlsSink.accepted)|
    {
      hide T.TlsStream, Ready;
      error := tlsOut.WriteAvailable(tlsSink);
    }

    /** What a round owes to its poll result: read all there is where there is input, write where there is room. */
    twostate predicate Served(poll: Poll)
      reads pty, tls, tlsSink, ptySink
    {
      && (poll.ptyIn ==> Ending(old(pty.script)) == NotYet)
      && (poll.tlsIn ==> Ending(old(tls.script)) == NotYet)
      && pty.taken == old(pty.taken) + (if poll.ptyIn then Readable(old(pty.script)) else [])
      && tls.taken == old(tls.taken) + (if poll.tlsIn then Readable(old(tls.script)) else [])
      && (poll.ptyOut && old(ptyOut.chunks != [] && Ready(ptySink.script)) ==>
            |ptySink.accepted| > |old(ptySink.accepted)|)
      && (poll.tlsOut && old(tlsOut.chunks != [] && Ready(tlsSink.script)) ==>
            |tlsSink.accepted| > |old(tlsSink.accepted)|)
    }

    /** Why a round ends the loop: a stream ended or failed, or what was read cannot be passed on. */
    ghost predicate ReadStopped(poll: Poll, error: Error)
      reads pty, tls
    {
      || (poll.ptyIn && EndOf(pty.last, PTY_CLOSED) == Some(error))
      || (poll.ptyIn && Unforwardable(pty.taken) && !error.Io? && error != PTY_CLOSED)
      || (poll.tlsIn && EndOf(tls.last, TLS_CLOSED) == Some(error))
      || (poll.tlsIn && T.ParseEager(tls.taken).error == Some(error))
    }

    /** Or the write that was just made failed or took nothing. */
    ghost predicate WriteStopped(poll: Poll, error: Error)
      reads ptyOut, ptySink, tlsOut, tlsSink
    {
      || (poll.ptyOut && ptyOut.chunks != [] && ErrorOf(ptySink.last) == Some(error))
      || (poll.tlsOut && tlsOut.chunks != [] && ErrorOf(tlsSink.last) == Some(error))
    }

    method Round(poll: Poll) returns (error: Option<Error>)
      requires Valid()
      modifies this, pty, tls, ptyDecoder, tlsDecoder, tlsOut, tlsSink, ptyOut, ptySink, hdlcEncoder
      ensures Conserved() && rounds == old(rounds) + 1 && old(up) <= up && old(down) <= down
      ensures error.None? ==> Valid() && Served(poll)
      ensures error.Some? ==> ReadStopped(poll, error.value) || WriteStopped(poll, error.value)
    {
      hide UpConserved, DownConserved, UpComplete, DownComplete, UpTraced, DownTraced;
      hide ReadStopped, WriteStopped, Ready, Readable, Ending;
      rounds := rounds + 1;
      error := ReadRound(poll);
      if error.None? {
        error := WriteRound(poll);
      }
    }

    method ReadRound(poll: Poll) returns (error: Option<Error>)
      requires Valid()
      modifies this`up, this`ptyToTlsPackets, this`down, this`tlsToPtyPackets, this`lastIpcpIpv4, this`callbacks
      modifies pty, tls, ptyDecoder, tlsDecoder, tlsOut, ptyOut, hdlcEncoder
      ensures Conserved() && old(up) <= up && old(down) <= down
      ensures error.None? ==> Valid()
      ensures error.Some? ==> ReadStopped(poll, error.value)
      ensures error.None? ==>
                && (poll.ptyIn ==> Ending(old(pty.script)) == NotYet)
                && (poll.tlsIn ==> Ending(old(tls.script)) == NotYet)
                && pty.taken == old(pty.taken) + (if poll.ptyIn then Readable(old(pty.script)) else [])
                && tls.taken == old(tls.taken) + (if poll.tlsIn then Readable(old(tls.script)) else [])
      ensures old(tlsOut.chunks) <= tlsOut.chunks && old(ptyOut.chunks) <= ptyOut.chunks
    {
      hide UpConserved, DownConserved, UpComplete, DownComplete, UpTraced, DownTraced;
      hide Readable, Ending, EndOf, Unforwardable;
      if poll.ptyIn {
        error := ReadPtyIntoTlsQueue();
        if error.Some? {
          return error;
        }
      }
      if poll.tlsIn {
        error := ReadTlsIntoPtyQueue();
        if error.Some? {
          return error;
        }
      }
      error := None;
    }

    method WriteRound(poll: Poll) returns (error: Option<Error>)
      requires Valid()
      modifies tlsOut, tlsSink, ptyOut, ptySink
      ensures Valid()
      ensures
        var e := if poll.ptyOut && old(ptyOut.chunks) != [] then ErrorOf(ptySink.last) else None;
        error == if e.Some? || !poll.tlsOut || old(tlsOut.chunks) == [] then e else ErrorOf(tlsSink.last)
      ensures error.Some? ==> WriteStopped(poll, error.value)
      ensures error.None? && poll.ptyOut && old(ptyOut.chunks != [] && Ready(ptySink.script)) ==>
                |ptySink.accepted| > |old(ptySink.accepted)|
      ensures error.None? && poll.tlsOut && old(tlsOut.chunks != [] && Ready(tlsSink.script)) ==>
                |tlsSink.accepted| > |old(tlsSink.accepted)|
    {
      hide UpConserved, DownConserved, UpComplete, DownComplete, UpTraced, DownTraced, Ready, ErrorOf;
      error := None;
      if poll.ptyOut {
        error := WritePty();
        if error.Some? {
          return error;
        }
      }
      if poll.tlsOut {
        error := WriteTls();
      }
    }

    /** The rounds before the first poll result that ends the loop. */
    static function RoundsIn(polls: seq<Poll>): (n: nat)
      ensures n <= |polls|
    {
      if polls == [] || polls[0].stop then 0 else 1 + RoundsIn(polls[1..])
    }

    /**
     * The loop: an arbitrary sequence of poll results, arbitrary reads and arbitrarily short writes. However it
     * ends, what was written and what is still queued account for the packets queued so far, and these are an
     * initial part of what the bytes read stand for, all of it if there was no error. An error has its reason in
     * the last round.
     */
    method Run(polls: seq<Poll>) returns (error: Option<Error>)
      requires Valid()
      modifies this, pty, tls, ptyDecoder, tlsDecoder, tlsOut, tlsSink, ptyOut, ptySink, hdlcEncoder
      ensures Conserved() && old(up) <= up && old(down) <= down
      ensures error.None? ==> Valid() && rounds == old(rounds) + RoundsIn(polls)
      ensures error.Some? ==>
                && old(rounds) < rounds <= old(rounds) + RoundsIn(polls)
                && var last := polls[rounds - old(rounds) - 1];
                   ReadStopped(last, error.value) || WriteStopped(last, error.value)
    {
      hide Valid, Conserved, Served, ReadStopped, WriteStopped;
      for i := 0 to |polls|
        invariant Valid() && rounds == old(rounds) + i && rounds + RoundsIn(polls[i..]) == old(rounds) + RoundsIn(polls)
        invariant old(up) <= up && old(down) <= down
      {
        assert polls[i..][1..] == polls[i + 1..];
        ValidIsConserved();
        if polls[i].stop {
          return None;
        }
        error := Round(polls[i]);
        if error.Some? {
          return error;
        }
      }
      ValidIsConserved();
      return None;
    }

    lemma ValidIsConserved()
      requires Valid()
      ensures Conserved()
    {
    }
  }

  lemma {:induction false} DecodeErrors(frames: seq<seq<byte>>)
    ensures P.DecodeAll(frames).Err? ==>
              P.DecodeAll(frames).error == HdlcInvalidFrame || P.DecodeAll(frames).error == HdlcBadChecksum
  {
    hide TrailerFor, Feed;
    if frames != [] {
      DecodeErrors(frames[..|frames| - 1]);
    }
  }

  lemma PushErrors(buffer: seq<byte>, bytes: seq<byte>)
    ensures
      var r := P.Push(buffer, bytes).result;
      r.Err? ==> !r.error.Io? && r.error != PTY_CLOSED
  {
    hide P.DecodeAll, Deframe;
    DecodeErrors(Deframe(buffer + bytes).frames);
    assert "pppd pty closed"[5] == 'p' && P.OVERFLOW.reason[9] == 'b' && "pppd pty closed"[9] == 'c';
  }

  lemma ParsedAreNonEmpty(s: seq<byte>)
    ensures P.NonEmpty(T.ParseEager(s).packets)
  {
    hide T.ParseEager, T.TlsStream;
    T.ParseConserves(s);
    var ps := T.ParseEager(s).packets;
    assert forall i :: 0 <= i < |ps| ==> ps[i] in ps;
  }

  lemma {:induction false} ParseErrors(s: seq<byte>)
    ensures
      var d := T.ParseEager(s);
      d.error.Some? ==> d.error.value == PermissionDenied || d.error.value == HdlcInvalidFrame
    decreases |s|
  {
    hide U16, T.LooksLikeHttp, HeaderIsValid;
    if T.NextEager(s).Frame? {
      ParseErrors(T.NextEager(s).rest);
    }
  }

  // ---------- End to end ----------

  /** If the pty carried an encoded packet list, the packets queued for TLS are that list. */
  lemma UpCarries(taken: seq<byte>, up: seq<Packet>, packets: seq<Packet>)
    requires P.DecodeAll(Deframe(taken).frames) == Ok(up)
    requires taken == P.EncodeStream(packets) && P.NonEmpty(packets)
    ensures up == packets
  {
    hide P.DecodeAll, P.EncodeStream, Deframe;
    P.DeframeEncoded(packets);
    P.DecodeBodies(packets);
  }

  /** If TLS carried the frames of a packet list, the packets queued for the pty are that list. */
  lemma DownCarries(taken: seq<byte>, down: seq<Packet>, rest: seq<byte>, packets: seq<Packet>)
    requires T.ParseEager(taken) == T.Parsed(down, rest, None)
    requires taken == T.TlsStream(packets) && forall p :: p in packets ==> T.Sendable(p)
    ensures down == packets && rest == []
  {
    hide T.TlsStream, T.NextEager;
    assert taken + [] == taken && packets + [] == packets;
    T.ParseOfStream(packets, []);
    T.EmptyNeedsMore();
  }

  /** Whatever part of the frames was written already, the far end has read an initial part of the packets. */
  lemma WrittenIsReadable(written: seq<byte>, queued: seq<byte>, up: seq<Packet>)
    requires written + queued == T.TlsStream(up) && forall p :: p in up ==> T.Sendable(p)
    ensures T.ParseEager(written).error.None? && T.ParseEager(written).packets <= up
  {
    hide T.TlsStream, T.NextEager;
    assert (written + queued) + [] == written + queued && up + [] == up;
    T.ParseOfStream(up, []);
    T.EmptyNeedsMore();
    T.ParseResumes(written, queued);
  }

  /** Likewise towards the pty: what pppd has decoded so far is an initial part of the packets. */
  lemma WrittenIsDecodable(written: seq<byte>, queued: seq<byte>, down: seq<Packet>)
    requires written + queued == P.EncodeStream(down) && P.NonEmpty(down)
    ensures P.DecodeAll(Deframe(written).frames).Ok? && P.DecodeAll(Deframe(written).frames).value <= down
  {
    hide P.DecodeAll, P.EncodeStream, Deframe;
    P.DeframeEncoded(down);
    P.DecodeBodies(down);
    ResumeFromTail(written, queued);
    if P.DecodeAll(Deframe(written).frames).Err? {
      P.FramesOfPrefix(written, queued);
    } else {
      P.DecodeAllConcat(Deframe(written).frames, Deframe(Deframe(written).tail + queued).frames);
    }
  }

  /**
   * At every moment, also after an error, the far end of TLS has read an initial part of the packets queued, and
   * so of those that pppd's bytes stand for, without error.
   */
  lemma FarEndOfTlsReads(f: Forwarder)
    requires f.Conserved()
    ensures T.ParseEager(f.tlsSink.accepted).error.None?
    ensures T.ParseEager(f.tlsSink.accepted).packets <= f.up
    ensures T.ParseEager(f.tlsSink.accepted).packets <= P.Decoded(Deframe(f.pty.taken).frames)
  {
    hide T.TlsStream, T.ParseEager, P.Decoded, Deframe;
    WrittenIsReadable(f.tlsSink.accepted, f.tlsOut.Pending(), f.up);
  }

  /** Likewise pppd has decoded an initial part of the packets queued, and so of those that TLS carried. */
  lemma PppdDecodes(f: Forwarder)
    requires f.Conserved()
    ensures P.DecodeAll(Deframe(f.ptySink.accepted).frames).Ok?
    ensures P.DecodeAll(Deframe(f.ptySink.accepted).frames).value <= f.down
    ensures P.DecodeAll(Deframe(f.ptySink.accepted).frames).value <= T.ParseEager(f.tls.taken).packets
  {
    hide T.ParseEager, P.EncodeStream, P.DecodeAll, P.NonEmpty, Deframe, Changes, Addresses, LastOf;
    WrittenIsDecodable(f.ptySink.accepted, f.ptyOut.Pending(), f.down);
  }
}
