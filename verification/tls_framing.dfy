/**
 * The three readers of the TLS framing: the stream decoder of the forwarding loop, the proxy transport, and
 * the blocking packet reader. The first rejects a bad header as soon as it has six bytes; the other two only
 * when the whole frame is there.
 */
module TlsFraming {
  import opened Bytes
  import opened Packets
  import opened Io

  // ---------- Reference parsers ----------

  datatype Step = NeedMore | Frame(packet: Packet, rest: seq<byte>) | Reject(error: Error, rest: seq<byte>)

  predicate LooksLikeHttp(buffer: seq<byte>)
    requires |buffer| >= HEADER_LEN
  {
    buffer[..HEADER_LEN] == HTTP_HEADER_PREFIX
  }

  /** Take a frame off the front, judging its header only when the frame is complete. */
  function NextLazy(buffer: seq<byte>): (step: Step)
    ensures step.Frame? ==> |step.rest| < |buffer|
  {
    if |buffer| < HEADER_LEN then NeedMore
    else if LooksLikeHttp(buffer) then Reject(PermissionDenied, buffer)
    else if Total(buffer) < HEADER_LEN + 1 then Reject(HdlcInvalidFrame, buffer)
    else if |buffer| < Total(buffer) then NeedMore
    else
      match DecodeFromTlsFrame(buffer[..Total(buffer)])
      case Ok(p) => Frame(p, buffer[Total(buffer)..])
      case Err(e) => Reject(e, buffer[Total(buffer)..])
  }

  /** Take a frame off the front, judging its header at once. */
  function NextEager(buffer: seq<byte>): (step: Step)
    ensures step.Frame? ==> |step.rest| < |buffer|
  {
    if |buffer| < HEADER_LEN then NeedMore
    else if LooksLikeHttp(buffer) then Reject(PermissionDenied, buffer)
    else if !HeaderIsValid(buffer) then Reject(HdlcInvalidFrame, buffer)
    else if |buffer| < Total(buffer) then NeedMore
    else
      match DecodeFromTlsFrame(buffer[..Total(buffer)])
      case Ok(p) => Frame(p, buffer[Total(buffer)..])
      case Err(e) => Reject(e, buffer)
  }

  datatype Parsed = Parsed(packets: seq<Packet>, rest: seq<byte>, error: Option<Error>)

  function Prepend(ps: seq<Packet>, d: Parsed): Parsed {
    d.(packets := ps + d.packets)
  }

  function ParseLazy(s: seq<byte>): Parsed
    decreases |s|
  {
    match NextLazy(s)
    case NeedMore => Parsed([], s, None)
    case Reject(e, rest) => Parsed([], rest, Some(e))
    case Frame(p, rest) => Prepend([p], ParseLazy(rest))
  }

  function ParseEager(s: seq<byte>): Parsed
    decreases |s|
  {
    match NextEager(s)
    case NeedMore => Parsed([], s, None)
    case Reject(e, rest) => Parsed([], rest, Some(e))
    case Frame(p, rest) => Prepend([p], ParseEager(rest))
  }

  predicate Sendable(p: Packet) {
    1 <= |p| <= MAX_DATA
  }

  function TlsStream(packets: seq<Packet>): seq<byte>
  {
    if packets == [] then [] else FrameOf(packets[0]) + TlsStream(packets[1..])
  }

  // ---------- How the two relate ----------

  lemma FramePrefixHeader(buffer: seq<byte>, n: nat)
    requires HEADER_LEN <= n <= |buffer|
    ensures Total(buffer[..n]) == Total(buffer)
    ensures HeaderIsValid(buffer[..n]) == HeaderIsValid(buffer)
    ensures LooksLikeHttp(buffer[..n]) == LooksLikeHttp(buffer)
  {
    hide U16;
    assert buffer[..n][..HEADER_LEN] == buffer[..HEADER_LEN];
  }

  /** Both parsers deliver the same frame; the lazy one differs only in when, and how far, it rejects. */
  lemma SameStep(buffer: seq<byte>)
    ensures NextEager(buffer).Frame? || NextLazy(buffer).Frame? ==> NextEager(buffer) == NextLazy(buffer)
    ensures NextLazy(buffer).Reject? ==> NextEager(buffer) == Reject(NextLazy(buffer).error, buffer)
    ensures NextEager(buffer).NeedMore? ==> NextLazy(buffer).NeedMore?
    ensures NextEager(buffer).Reject? && NextLazy(buffer).NeedMore? ==>
              && NextEager(buffer).error == HdlcInvalidFrame
              && HEADER_LEN <= |buffer| < Total(buffer) && !HeaderIsValid(buffer)
  {
    hide U16, LooksLikeHttp;
    if |buffer| >= HEADER_LEN && Total(buffer) <= |buffer| && Total(buffer) >= HEADER_LEN {
      FramePrefixHeader(buffer, Total(buffer));
    }
  }

  /** An incomplete frame with a bad header, which the lazy reader still waits for, can only end in rejection. */
  lemma DoomedFrame(buffer: seq<byte>, more: seq<byte>)
    requires NextEager(buffer).Reject? && NextLazy(buffer).NeedMore?
    ensures NextLazy(buffer + more).NeedMore? <==> |buffer + more| < Total(buffer)
    ensures |buffer + more| >= Total(buffer) ==>
              NextLazy(buffer + more).Reject? && NextLazy(buffer + more).error == HdlcInvalidFrame
  {
    hide U16, LooksLikeHttp;
    SameStep(buffer);
    var all := buffer + more;
    assert all[..|buffer|] == buffer;
    FramePrefixHeader(all, |buffer|);
    if |all| >= Total(buffer) {
      FramePrefixHeader(all, Total(buffer));
    }
  }

  /**
   * On every byte string the two parsers deliver the same packets, a lazy rejection is an eager rejection with
   * the same error, and an eager rejection the lazy parser has not made yet is a doomed incomplete frame.
   */
  lemma {:induction false} ParsersAgree(s: seq<byte>)
    ensures ParseEager(s).packets == ParseLazy(s).packets
    ensures ParseLazy(s).error.Some? ==> ParseEager(s).error == ParseLazy(s).error
    ensures ParseEager(s).error.None? ==> ParseLazy(s) == ParseEager(s)
    ensures ParseEager(s).error.Some? && ParseLazy(s).error.None? ==>
              && ParseEager(s).error == Some(HdlcInvalidFrame) && ParseEager(s).rest == ParseLazy(s).rest
              && NextEager(ParseLazy(s).rest).Reject? && NextLazy(ParseLazy(s).rest).NeedMore?
    decreases |s|
  {
    hide NextEager, NextLazy;
    SameStep(s);
    if NextEager(s).Frame? {
      ParsersAgree(NextEager(s).rest);
    } else if NextEager(s).Reject? {
      RejectKeepsAll(s);
    }
  }

  lemma StepConserves(s: seq<byte>)
    requires NextEager(s).Frame?
    ensures Sendable(NextEager(s).packet)
    ensures FrameOf(NextEager(s).packet) + NextEager(s).rest == s
  {
    hide U16, LooksLikeHttp, HeaderIsValid;
    var total := Total(s);
    DecodeIffEncode(s[..total], NextEager(s).packet);
    assert s == s[..total] + s[total..];
  }

  /** Nothing is lost or invented: the packets re-encoded, followed by the leftover, are the input. */
  lemma {:induction false} ParseConserves(s: seq<byte>)
    ensures forall p :: p in ParseEager(s).packets ==> Sendable(p)
    ensures TlsStream(ParseEager(s).packets) + ParseEager(s).rest == s
    decreases |s|
  {
    hide NextEager, FrameOf;
    match NextEager(s)
    case NeedMore => assert [] + s == s;
    case Reject(e, rest) => RejectKeepsAll(s); assert [] + s == s;
    case Frame(p, rest) =>
      StepConserves(s);
      ParseConserves(rest);
      var d := ParseEager(rest);
      assert ([p] + d.packets)[1..] == d.packets;
      AppendAssoc(FrameOf(p), TlsStream(d.packets), d.rest);
  }

  lemma RejectKeepsAll(s: seq<byte>)
    requires NextEager(s).Reject?
    ensures NextEager(s).rest == s
  {
  }

  lemma StepExtends(s: seq<byte>, more: seq<byte>)
    ensures NextEager(s).Frame? ==> NextEager(s + more) == Frame(NextEager(s).packet, NextEager(s).rest + more)
    ensures NextEager(s).Reject? ==> NextEager(s + more) == Reject(NextEager(s).error, s + more)
  {
    hide U16, LooksLikeHttp, HeaderIsValid;
    if |s| >= HEADER_LEN {
      assert (s + more)[..|s|] == s;
      FramePrefixHeader(s + more, |s|);
      var total := Total(s);
      if total <= |s| {
        assert (s + more)[..total] == s[..total];
        assert (s + more)[total..] == s[total..] + more;
      }
    }
  }

  /** Parsing may be interrupted anywhere: the leftover and the next bytes give the rest of the packets. */
  lemma {:induction false} ParseResumes(s: seq<byte>, more: seq<byte>)
    ensures ParseEager(s).error.None? ==>
              ParseEager(s + more) == Prepend(ParseEager(s).packets, ParseEager(ParseEager(s).rest + more))
    ensures ParseEager(s).error.Some? ==>
              ParseEager(s + more) == Parsed(ParseEager(s).packets, ParseEager(s).rest + more, ParseEager(s).error)
    decreases |s|
  {
    hide NextEager;
    StepExtends(s, more);
    match NextEager(s)
    case NeedMore => assert [] + ParseEager(s + more).packets == ParseEager(s + more).packets;
    case Reject(e, rest) => RejectKeepsAll(s);
    case Frame(p, rest) =>
      ParseResumes(rest, more);
      if ParseEager(rest).error.None? {
        AppendAssoc([p], ParseEager(rest).packets, ParseEager(ParseEager(rest).rest + more).packets);
      }
  }

  lemma EncodedStep(p: Packet, more: seq<byte>)
    requires Sendable(p)
    ensures NextEager(FrameOf(p) + more) == Frame(p, more)
  {
    hide U16;
    var f := FrameOf(p);
    DecodeIffEncode(f, p);
    HeaderFields(HEADER_LEN + |p|, |p|, p);
    NoFrameLooksLikeHttp(f);
    FramePrefixHeader(f + more, |f|);
    assert (f + more)[..|f|] == f && (f + more)[|f|..] == more;
  }

  lemma HttpMagic(f: seq<byte>)
    requires |f| >= HEADER_LEN && LooksLikeHttp(f)
    ensures f[2] == 0x54
  {
    assert f[2] == f[..HEADER_LEN][2];
  }

  lemma U16AtLeast(hi: byte, lo: byte)
    requires hi == 0x54
    ensures U16(hi, lo) >= 0x5400
  {
  }

  /** The check for an HTTP answer never hits a frame: bytes 2 and 3 are the magic number. */
  lemma NoFrameLooksLikeHttp(f: seq<byte>)
    requires |f| >= HEADER_LEN && HeaderIsValid(f)
    ensures !LooksLikeHttp(f)
  {
    hide U16, LooksLikeHttp;
    if LooksLikeHttp(f) {
      HttpMagic(f);
      U16AtLeast(f[2], f[3]);
      assert false;
    }
  }

  /** An answer in HTTP, of six bytes or more, is refused as such by both kinds of reader. */
  lemma HttpIsRefused(s: seq<byte>, more: seq<byte>)
    requires s == [0x48, 0x54, 0x54, 0x50, 0x2f, 0x31]
    ensures ParseEager(s + more) == ParseLazy(s + more) == Parsed([], s + more, Some(PermissionDenied))
  {
    assert (s + more)[..6] == s;
  }

  /** The eager parser stops exactly at an HTTP answer, at a header that starts no frame, or when bytes are missing. */
  lemma EagerStep(s: seq<byte>)
    ensures |s| < 6 ==> NextEager(s) == NeedMore
    ensures |s| >= 6 ==>
              var total := Total(s);
              && (LooksLikeHttp(s) <==> s[..6] == [0x48, 0x54, 0x54, 0x50, 0x2f, 0x31])
              && total == 256 * s[0] as int + s[1] as int
              && if LooksLikeHttp(s) then NextEager(s) == Reject(PermissionDenied, s)
                 else if !HeaderIsValid(s) then NextEager(s) == Reject(HdlcInvalidFrame, s)
                 else if |s| < total then NextEager(s) == NeedMore
                 else NextEager(s) == Frame(s[6..total], s[total..])
  {
    hide HeaderIsValid, Total, DecodeFromTlsFrame, LooksLikeHttp;
    if |s| >= 6 {
      FirstSix(s);
      if HeaderIsValid(s) {
        TotalOfValid(s);
        if Total(s) <= |s| {
          FramePrefixHeader(s, Total(s));
          WholeFrame(s[..Total(s)]);
          assert s[..Total(s)][6..] == s[6..Total(s)];
        }
      }
    }
  }

  lemma FirstSix(s: seq<byte>)
    requires |s| >= 6
    ensures Total(s) == 256 * s[0] as int + s[1] as int
    ensures LooksLikeHttp(s) <==> s[..6] == [0x48, 0x54, 0x54, 0x50, 0x2f, 0x31]
  {
  }

  lemma WholeFrame(f: seq<byte>)
    requires |f| >= 6 && HeaderIsValid(f) && |f| == Total(f)
    ensures DecodeFromTlsFrame(f) == Ok(f[6..])
  {
    hide U16;
  }

  lemma {:induction false} ParseOfStream(packets: seq<Packet>, more: seq<byte>)
    requires forall p :: p in packets ==> Sendable(p)
    ensures ParseEager(TlsStream(packets) + more) == Prepend(packets, ParseEager(more))
  {
    hide NextEager, FrameOf;
    if packets == [] {
      assert [] + more == more && [] + ParseEager(more).packets == ParseEager(more).packets;
    } else {
      var f := FrameOf(packets[0]);
      EncodedStep(packets[0], TlsStream(packets[1..]) + more);
      AppendAssoc(f, TlsStream(packets[1..]), more);
      ParseOfStream(packets[1..], more);
      assert [packets[0]] + (packets[1..] + ParseEager(more).packets) == packets + ParseEager(more).packets;
    }
  }

  lemma {:induction false} TlsStreamSnoc(packets: seq<Packet>, p: Packet)
    ensures TlsStream(packets + [p]) == TlsStream(packets) + FrameOf(p)
  {
    hide FrameOf;
    if packets == [] {
      assert [] + [p] == [p] && [p][1..] == [];
      assert FrameOf(p) + [] == [] + FrameOf(p);
    } else {
      assert (packets + [p])[1..] == packets[1..] + [p];
      TlsStreamSnoc(packets[1..], p);
      AppendAssoc(FrameOf(packets[0]), TlsStream(packets[1..]), FrameOf(p));
    }
  }

  // ---------- The stream decoder of the forwarding loop ----------

  datatype Outcome = Outcome(result: Result<seq<Packet>>, buffer: seq<byte>)

  function Push(buffer: seq<byte>, bytes: seq<byte>): Outcome {
    var d := ParseEager(buffer + bytes);
    Outcome(if d.error.Some? then Err(d.error.value) else Ok(d.packets), d.rest)
  }

  class TlsPacketStreamDecoder {
    var buffer: seq<byte>

    constructor ()
      ensures buffer == []
    {
      buffer := [];
    }

    method PushBytes(bytes: seq<byte>) returns (result: Result<seq<Packet>>)
      modifies this
      ensures Outcome(result, buffer) == Push(old(buffer), bytes)
    {
      hide U16, LooksLikeHttp, HeaderIsValid, DecodeFromTlsFrame;
      buffer := buffer + bytes;
      ghost var all := ParseEager(buffer);
      var packets := [];
      while true
        invariant all == Prepend(packets, ParseEager(buffer))
        decreases |buffer|
      {
        if |buffer| < HEADER_LEN {
          break;
        }
        if LooksLikeHttp(buffer) {
          return Err(PermissionDenied);
        }
        if !HeaderIsValid(buffer) {
          return Err(HdlcInvalidFrame);
        }
        var total := Total(buffer);
        if |buffer| < total {
          break;
        }
        TotalOfValid(buffer);
        var packet := DecodeFromTlsFrame(buffer[..total]);
        if packet.Err? {
          return Err(packet.error);
        }
        AppendAssoc(packets, [packet.value], ParseEager(buffer[total..]).packets);
        packets := packets + [packet.value];
        buffer := buffer[total..];
      }
      assert packets + [] == packets;
      return Ok(packets);
    }
  }

  lemma TotalOfValid(buffer: seq<byte>)
    requires |buffer| >= HEADER_LEN && HeaderIsValid(buffer)
    ensures Total(buffer) >= HEADER_LEN + 1
  {
  }

  function PushChunks(buffer: seq<byte>, chunks: seq<seq<byte>>): Outcome {
    if chunks == [] then Outcome(Ok([]), buffer)
    else
      var before := PushChunks(buffer, chunks[..|chunks| - 1]);
      if before.result.Err? then before
      else
        var last := Push(before.buffer, chunks[|chunks| - 1]);
        if last.result.Err? then last
        else Outcome(Ok(before.result.value + last.result.value), last.buffer)
  }

  /** However the bytes arrive, the run fails or delivers exactly as if they had arrived at once. */
  lemma {:induction false} ChunkingIsIrrelevant(chunks: seq<seq<byte>>)
    ensures
      var d := ParseEager(Flatten(chunks));
      PushChunks([], chunks).result == (if d.error.Some? then Err(d.error.value) else Ok(d.packets))
    ensures
      var d := ParseEager(Flatten(chunks));
      d.error.None? ==> PushChunks([], chunks).buffer == d.rest
  {
    hide NextEager;
    if chunks == [] {
      assert Flatten<byte>([]) == [];
      EmptyNeedsMore();
    } else {
      hide ParseEager;
      var n := |chunks| - 1;
      ChunkingIsIrrelevant(chunks[..n]);
      ParseResumes(Flatten(chunks[..n]), chunks[n]);
    }
  }

  lemma EmptyNeedsMore()
    ensures NextEager([]) == NeedMore
  {
  }

  // ---------- The proxy transport ----------

  const READ_BUFFER_SIZE: nat := 16 * 1024
  const MAX_PACKET_BUFFER_SIZE: nat := 1024 * 1024
  const LONGEST_INCOMPLETE: nat := 0xffff - 1

  lemma IncompleteIsShort(buffer: seq<byte>)
    requires NextLazy(buffer).NeedMore?
    ensures |buffer| <= LONGEST_INCOMPLETE
  {
  }

  lemma LazyStepConserves(s: seq<byte>)
    requires NextLazy(s).Frame?
    ensures Sendable(NextLazy(s).packet)
    ensures FrameOf(NextLazy(s).packet) + NextLazy(s).rest == s
  {
    hide NextEager, NextLazy, FrameOf;
    SameStep(s);
    StepConserves(s);
  }

  class FortinetTransport {
    const stream: ByteSource
    var readBuffer: seq<byte>
    /** The packets returned so far. */
    ghost var delivered: seq<Packet>

    /** Every byte taken from the stream is in a delivered packet or still buffered, and the buffer is small. */
    ghost predicate Valid()
      reads this, stream
    {
      && (forall p :: p in delivered ==> Sendable(p))
      && TlsStream(delivered) + readBuffer == stream.taken
      && |readBuffer| <= LONGEST_INCOMPLETE + READ_BUFFER_SIZE
    }

    constructor (stream: ByteSource)
      requires stream.taken == []
      ensures Valid() && this.stream == stream && readBuffer == [] && delivered == []
    {
      this.stream := stream;
      readBuffer := [];
      delivered := [];
      new;
      assert TlsStream([]) + [] == [];
    }

    method TryDecodeBufferedPacket() returns (result: Result<Option<Packet>>)
      modifies this`readBuffer
      ensures
        match NextLazy(old(readBuffer))
        case NeedMore => result == Ok(None) && readBuffer == old(readBuffer)
        case Frame(p, rest) => result == Ok(Some(p)) && readBuffer == rest
        case Reject(e, rest) => result == Err(e) && readBuffer == rest
    {
      hide U16, LooksLikeHttp, DecodeFromTlsFrame;
      if |readBuffer| < HEADER_LEN {
        return Ok(None);
      }
      if LooksLikeHttp(readBuffer) {
        return Err(PermissionDenied);
      }
      var total := Total(readBuffer);
      if total < HEADER_LEN + 1 {
        return Err(HdlcInvalidFrame);
      }
      if |readBuffer| < total {
        return Ok(None);
      }
      var frame := readBuffer[..total];
      readBuffer := readBuffer[total..];
      var packet := DecodeFromTlsFrame(frame);
      if packet.Err? {
        return Err(packet.error);
      }
      return Ok(Some(packet.value));
    }

    /**
     * A packet is returned when, and as soon as, the buffered bytes hold one. An I/O failure, a timeout
     * included, leaves an invariant state, so the next call resumes with nothing lost; and the error for an
     * overlong buffer is never returned.
     */
    method ReadPacket() returns (result: Result<Packet>)
      requires Valid()
      modifies this, stream
      ensures result.Ok? ==> Valid() && delivered == old(delivered) + [result.value]
      ensures result.Err? ==> delivered == old(delivered)
      ensures result.Err? && result.error.Io? ==>
                Valid() && NextLazy(readBuffer).NeedMore? && |readBuffer| <= LONGEST_INCOMPLETE
      ensures result.Err? && !result.error.Io? ==>
                exists s :: NextLazy(s) == Reject(result.error, readBuffer) && TlsStream(delivered) + s == stream.taken
      ensures result.Err? ==> !result.error.Network?
      ensures result.Err? && result.error.Io? ==>
                stream.taken == old(stream.taken) + Readable(old(stream.script))
      ensures result.Ok? || !result.error.Io? ==>
                stream.taken + Readable(stream.script) == old(stream.taken) + Readable(old(stream.script))
    {
      hide NextLazy, TlsStream, FrameOf, Sendable, Readable;
      ghost var all := stream.taken + Readable(stream.script);
      while true
        invariant Valid() && delivered == old(delivered) && stream.taken + Readable(stream.script) == all
        decreases ByteSource.Weight(stream.script)
      {
        ghost var s := readBuffer;
        var packet := TryDecodeBufferedPacket();
        if packet.Err? {
          RejectErrors(s);
          return Err(packet.error);
        }
        if packet.value.Some? {
          LazyStepConserves(s);
          TlsStreamSnoc(delivered, packet.value.value);
          AppendAssoc(TlsStream(delivered), FrameOf(packet.value.value), readBuffer);
          delivered := delivered + [packet.value.value];
          return Ok(packet.value.value);
        }
        IncompleteIsShort(readBuffer);
        ghost var taken := stream.taken;
        var event := stream.Read(READ_BUFFER_SIZE);
        assert taken + [] == taken;
        match event
        case ReadFailed(kind) =>
          return Err(Error.Io(kind));
        case Chunk(bytes) =>
          if bytes == [] {
            return Err(Error.Io(UnexpectedEof));
          }
          AppendAssoc(taken, bytes, Readable(stream.script));
          AppendAssoc(TlsStream(delivered), readBuffer, bytes);
          readBuffer := readBuffer + bytes;
          if |readBuffer| > MAX_PACKET_BUFFER_SIZE {
            assert false;
          }
      }
    }
  }

  lemma RejectErrors(s: seq<byte>)
    ensures NextLazy(s).Reject? ==> NextLazy(s).error == PermissionDenied || NextLazy(s).error == HdlcInvalidFrame
  {
  }

  // ---------- The blocking packet reader ----------

  method ReadTlsPacket(reader: ExactReader) returns (result: Result<Packet>)
    modifies reader
    ensures
      match NextLazy(old(reader.rest))
      case NeedMore => result == Err(Error.Io(UnexpectedEof))
      case Frame(p, rest) => result == Ok(p) && reader.rest == rest
      case Reject(e, _) => result == Err(e)
  {
    hide U16, LooksLikeHttp, DecodeFromTlsFrame;
    ghost var s := reader.rest;
    var header := reader.ReadExact(HEADER_LEN);
    if header.Err? {
      return Err(header.error);
    }
    FramePrefixHeader(s, HEADER_LEN);
    if LooksLikeHttp(header.value) {
      return Err(PermissionDenied);
    }
    var total := Total(header.value);
    if total < HEADER_LEN + 1 {
      return Err(HdlcInvalidFrame);
    }
    var body := reader.ReadExact(total - HEADER_LEN);
    if body.Err? {
      return Err(body.error);
    }
    var frame := header.value + body.value;
    assert frame == s[..total] && reader.rest == s[total..];
    result := DecodeFromTlsFrame(frame);
  }

  /**
   * On a stream of packets of 1 to 65529 bytes the three readers yield the same packets: the stream decoder
   * under any chunking, and the two lazy readers, which take the same next step, one frame at a time.
   */
  lemma ReadersAgree(packets: seq<Packet>, chunks: seq<seq<byte>>)
    requires forall p :: p in packets ==> Sendable(p)
    requires Flatten(chunks) == TlsStream(packets)
    ensures PushChunks([], chunks) == Outcome(Ok(packets), [])
    ensures ParseLazy(TlsStream(packets)) == Parsed(packets, [], None)
    ensures packets != [] ==> NextLazy(TlsStream(packets)) == Frame(packets[0], TlsStream(packets[1..]))
  {
    hide PushChunks, Flatten, FrameOf;
    ChunkingIsIrrelevant(chunks);
    var s := TlsStream(packets);
    assert s + [] == s && packets + [] == packets;
    ParseOfStream(packets, []);
    EmptyNeedsMore();
    ParsersAgree(s);
    if packets != [] {
      EncodedStep(packets[0], TlsStream(packets[1..]));
      SameStep(s);
    }
  }

  // ---------- The transport over repeated calls ----------

  lemma LazyRest(delivered: seq<Packet>, rest: seq<byte>, taken: seq<byte>)
    requires (forall p :: p in delivered ==> Sendable(p)) && TlsStream(delivered) + rest == taken
    ensures NextLazy(rest).NeedMore? ==> ParseLazy(taken).packets == delivered && ParseLazy(taken).error.None?
    ensures NextLazy(rest).Reject? ==>
              ParseLazy(taken).packets == delivered && ParseLazy(taken).error == Some(NextLazy(rest).error)
  {
    hide NextEager, NextLazy, TlsStream, Sendable;
    LazyOfStream(delivered, rest);
    AppendEmpty(delivered, []);
  }

  lemma {:induction false} LazyOfStream(packets: seq<Packet>, more: seq<byte>)
    requires forall p :: p in packets ==> Sendable(p)
    ensures ParseLazy(TlsStream(packets) + more) == Prepend(packets, ParseLazy(more))
  {
    hide NextEager, NextLazy, FrameOf;
    if packets == [] {
      assert [] + more == more && [] + ParseLazy(more).packets == ParseLazy(more).packets;
    } else {
      var f := FrameOf(packets[0]);
      EncodedStep(packets[0], TlsStream(packets[1..]) + more);
      SameStep(f + (TlsStream(packets[1..]) + more));
      AppendAssoc(f, TlsStream(packets[1..]), more);
      LazyOfStream(packets[1..], more);
      assert [packets[0]] + (packets[1..] + ParseLazy(more).packets) == packets + ParseLazy(more).packets;
    }
  }

  lemma FramesTakeRoom(packets: seq<Packet>, p: Packet)
    ensures |TlsStream(packets + [p])| > |TlsStream(packets)|
  {
    hide TlsStream;
    TlsStreamSnoc(packets, p);
  }

  /**
   * The transport read until it fails, under whatever reads the stream gives: what it returned is what the lazy
   * parser makes of all bytes taken, and it fails otherwise than by the stream exactly where the parser rejects.
   */
  method ReadPackets(transport: FortinetTransport) returns (error: Error)
    requires transport.Valid()
    modifies transport, transport.stream
    ensures old(transport.delivered) <= transport.delivered
    ensures ParseLazy(transport.stream.taken).packets == transport.delivered
    ensures ParseLazy(transport.stream.taken).error == if error.Io? then None else Some(error)
    ensures error.Io? ==>
              && transport.Valid() && NextLazy(transport.readBuffer).NeedMore?
              && transport.stream.taken == old(transport.stream.taken) + Readable(old(transport.stream.script))
  {
    hide NextLazy, TlsStream, ParseLazy, Readable;
    ghost var all := transport.stream.taken + Readable(transport.stream.script);
    while true
      invariant transport.Valid() && old(transport.delivered) <= transport.delivered
      invariant transport.stream.taken + Readable(transport.stream.script) == all
      decreases |all| - |TlsStream(transport.delivered)|
    {
      ghost var before := transport.delivered;
      var packet := transport.ReadPacket();
      if packet.Err? {
        if packet.error.Io? {
          LazyRest(transport.delivered, transport.readBuffer, transport.stream.taken);
        } else {
          ghost var s :| NextLazy(s) == Reject(packet.error, transport.readBuffer)
                         && TlsStream(transport.delivered) + s == transport.stream.taken;
          LazyRest(transport.delivered, s, transport.stream.taken);
        }
        return packet.error;
      }
      FramesTakeRoom(before, packet.value);
    }
  }

  /** A transport that has taken the frames of a packet list and can return no more has returned that list. */
  lemma TransportYields(transport: FortinetTransport, packets: seq<Packet>)
    requires transport.Valid() && NextLazy(transport.readBuffer).NeedMore?
    requires transport.stream.taken == TlsStream(packets) && forall p :: p in packets ==> Sendable(p)
    ensures transport.delivered == packets && transport.readBuffer == []
  {
    hide NextLazy, NextEager, TlsStream, ParseLazy;
    LazyRest(transport.delivered, transport.readBuffer, transport.stream.taken);
    AppendEmpty(TlsStream(packets), []);
    LazyOfStream(packets, []);
    NothingParsed();
    AppendEmpty(packets, []);
    assert |TlsStream(packets) + transport.readBuffer| == |TlsStream(packets)|;
  }

  lemma NothingParsed()
    ensures ParseLazy([]) == Parsed([], [], None)
  {
    EmptyNeedsMore();
    SameStep([]);
  }

  /** The blocking reader called until it fails returns what the lazy parser makes of the stream. */
  method ReadTlsPackets(reader: ExactReader) returns (packets: seq<Packet>, error: Error)
    modifies reader
    ensures packets == ParseLazy(old(reader.rest)).packets
    ensures ParseLazy(old(reader.rest)).error == if error.Io? then None else Some(error)
  {
    hide NextLazy;
    packets := [];
    ghost var all := ParseLazy(reader.rest);
    assert all == Prepend([], all) by { assert [] + all.packets == all.packets; }
    while true
      invariant all == Prepend(packets, ParseLazy(reader.rest))
      decreases |reader.rest|
    {
      ghost var s := reader.rest;
      RejectErrors(s);
      var packet := ReadTlsPacket(reader);
      if packet.Err? {
        AppendEmpty(packets, []);
        return packets, packet.error;
      }
      AppendAssoc(packets, [packet.value], ParseLazy(reader.rest).packets);
      packets := packets + [packet.value];
    }
  }
}
