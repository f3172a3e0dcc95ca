/** The streaming decoder between pppd's pty and the tunnel, and the recovery of an encoded packet stream. */
module PtyDecoder {
  import opened Bytes
  import opened Hdlc
  import opened Deframing

  const MAX_PTY_BUFFER: nat := 64 * 1024
  const OVERFLOW: Error := Pppd("pppd pty buffer exceeded maximum size")

  /** The packets of a list of frames, or the first decoding error. */
  function DecodeAll(frames: seq<seq<byte>>): Result<seq<Packet>> {
    if frames == [] then Ok([])
    else
      match DecodeAll(frames[..|frames| - 1])
      case Err(e) => Err(e)
      case Ok(ps) =>
        match DecodeFrame(frames[|frames| - 1])
        case Err(e) => Err(e)
        case Ok(p) => Ok(ps + [p])
  }

  /** The packets of the frames before the first that does not decode. */
  function Decoded(frames: seq<seq<byte>>): seq<Packet> {
    if frames == [] then []
    else
      var init, last := frames[..|frames| - 1], frames[|frames| - 1];
      if DecodeAll(init).Ok? && DecodeFrame(last).Ok? then Decoded(init) + [DecodeFrame(last).value] else Decoded(init)
  }

  lemma {:induction false} DecodedIsAll(frames: seq<seq<byte>>)
    ensures DecodeAll(frames).Ok? ==> Decoded(frames) == DecodeAll(frames).value
  {
    hide DecodeFrame;
    if frames != [] {
      DecodedIsAll(frames[..|frames| - 1]);
    }
  }

  lemma {:induction false} DecodedGrows(frames: seq<seq<byte>>, more: seq<seq<byte>>)
    ensures Decoded(frames) <= Decoded(frames + more)
  {
    hide DecodeFrame, DecodeAll;
    if more == [] {
      assert frames + more == frames;
    } else {
      assert (frames + more)[..|frames + more| - 1] == frames + more[..|more| - 1];
      DecodedGrows(frames, more[..|more| - 1]);
    }
  }

  /** No decoded packet is empty. */
  lemma {:induction false} DecodedAreNonEmpty(frames: seq<seq<byte>>)
    ensures DecodeAll(frames).Ok? ==> forall p :: p in DecodeAll(frames).value ==> p != []
  {
    hide TrailerFor, Feed;
    if frames != [] {
      DecodedAreNonEmpty(frames[..|frames| - 1]);
    }
  }

  datatype Outcome = Outcome(result: Result<seq<Packet>>, buffer: seq<byte>)

  /** Reference for one call: everything is decided by the kept tail followed by the new bytes. */
  function Push(buffer: seq<byte>, bytes: seq<byte>): Outcome {
    if |buffer| + |bytes| > MAX_PTY_BUFFER then Outcome(Err(OVERFLOW), buffer)
    else
      var d := Deframe(buffer + bytes);
      match DecodeAll(d.frames)
      case Ok(ps) => Outcome(Ok(ps), d.tail)
      case Err(e) => Outcome(Err(e), buffer + bytes)
  }

  lemma DecodeAllSnoc(frames: seq<seq<byte>>, f: seq<byte>)
    ensures DecodeAll(frames).Ok? && DecodeFrame(f).Ok? ==>
              DecodeAll(frames + [f]) == Ok(DecodeAll(frames).value + [DecodeFrame(f).value])
    ensures DecodeAll(frames).Ok? && DecodeFrame(f).Err? ==> DecodeAll(frames + [f]) == Err(DecodeFrame(f).error)
    ensures DecodeAll(frames).Err? ==> DecodeAll(frames + [f]) == DecodeAll(frames)
  {
    assert (frames + [f])[..|frames|] == frames;
  }

  lemma {:induction false} FirstErrorWins(frames: seq<seq<byte>>, more: seq<seq<byte>>)
    requires DecodeAll(frames).Err?
    ensures DecodeAll(frames + more) == DecodeAll(frames)
  {
    if more == [] {
      assert frames + more == frames;
    } else {
      var n := |more| - 1;
      FirstErrorWins(frames, more[..n]);
      DecodeAllSnoc(frames + more[..n], more[n]);
      assert frames + more == frames + more[..n] + [more[n]];
    }
  }

  lemma {:induction false} DecodeAllConcat(a: seq<seq<byte>>, b: seq<seq<byte>>)
    requires DecodeAll(a).Ok?
    ensures DecodeAll(b).Ok? ==> DecodeAll(a + b) == Ok(DecodeAll(a).value + DecodeAll(b).value)
    ensures DecodeAll(b).Err? ==> DecodeAll(a + b) == DecodeAll(b)
  {
    if b == [] {
      assert a + b == a;
      assert DecodeAll(a).value + [] == DecodeAll(a).value;
    } else {
      hide DecodeAll, DecodeFrame;
      var n := |b| - 1;
      DecodeAllConcat(a, b[..n]);
      DecodeAllSnoc(a + b[..n], b[n]);
      DecodeAllSnoc(b[..n], b[n]);
      AppendSnoc(a, b);
      SnocOf(b);
      if DecodeAll(b[..n]).Ok? && DecodeFrame(b[n]).Ok? {
        AppendAssoc(DecodeAll(a).value, DecodeAll(b[..n]).value, [DecodeFrame(b[n]).value]);
      }
    }
  }

  /** `consumed` bytes of the buffer were turned into `frames`; the flag that closed the last one is still there. */
  ghost predicate Consumed(buffer: seq<byte>, consumed: nat, frames: seq<seq<byte>>) {
    if consumed == 0 then frames == []
    else
      && consumed < |buffer| && buffer[consumed] == FLAG
      && Deframe(buffer[..consumed + 1]) == Stream(true, [], [FLAG], frames)
  }

  lemma ConsumedThen(buffer: seq<byte>, consumed: nat, frames: seq<seq<byte>>, k: nat)
    requires Consumed(buffer, consumed, frames) && consumed <= k <= |buffer| && (consumed > 0 ==> consumed < k)
    ensures Deframe(buffer[..k]) == var d := Deframe(buffer[consumed..k]); d.(frames := frames + d.frames)
  {
    hide Receive;
    if consumed == 0 {
      assert buffer[..k] == buffer[0..k];
    } else {
      var s := buffer[..consumed + 1];
      var more := buffer[consumed + 1..k];
      assert buffer[..k] == s + more;
      assert buffer[consumed..k] == [FLAG] + more;
      ResumeFromTail(s, more);
    }
  }

  lemma ConsumeFrame(buffer: seq<byte>, consumed: nat, frames: seq<seq<byte>>, start: nat, end: nat)
    requires Consumed(buffer, consumed, frames) && consumed < start < end < |buffer| && buffer[end] == FLAG
    requires Deframe(buffer[consumed..end + 1]) == Stream(true, [], [FLAG], [buffer[start..end]])
    ensures Consumed(buffer, end, frames + [buffer[start..end]])
    ensures frames + [buffer[start..end]] <= Deframe(buffer).frames
  {
    hide Receive, ReceiveAll;
    ConsumedThen(buffer, consumed, frames, end + 1);
    var s, more := buffer[..end + 1], buffer[end + 1..];
    assert buffer == s + more;
    ResumeFromTail(s, more);
  }

  lemma ConsumeEnd(buffer: seq<byte>, consumed: nat, frames: seq<seq<byte>>)
    requires Consumed(buffer, consumed, frames) && Deframe(From(buffer, consumed)).frames == []
    requires consumed <= |buffer|
    ensures Deframe(buffer).frames == frames && Deframe(buffer).tail == buffer[consumed..]
  {
    hide Receive, ReceiveAll;
    ConsumedThen(buffer, consumed, frames, |buffer|);
    assert buffer[..|buffer|] == buffer && buffer[consumed..|buffer|] == buffer[consumed..];
    assert frames + [] == frames;
    TailIsSuffix(buffer[consumed..]);
  }

  lemma ErrorPrefix(frames: seq<seq<byte>>, all: seq<seq<byte>>)
    requires frames <= all && DecodeAll(frames).Err?
    ensures DecodeAll(all) == DecodeAll(frames)
  {
    FirstErrorWins(frames, all[|frames|..]);
    assert frames + all[|frames|..] == all;
  }

  class PppdPtyDecoder {
    var buffer: seq<byte>

    constructor ()
      ensures buffer == []
    {
      buffer := [];
    }

    method PushBytes(bytes: seq<byte>) returns (result: Result<seq<Packet>>)
      modifies this
      ensures Outcome(result, buffer) == Push(old(buffer), bytes)
    {
      hide DecodeFrame, Deframe, Consumed;
      if |buffer| + |bytes| > MAX_PTY_BUFFER {
        return Err(OVERFLOW);
      }
      buffer := buffer + bytes;
      ghost var all := buffer;
      var packets := [];
      var consumedUntil := 0;
      ghost var frames := [];
      ConsumedNothing(all);

      while true
        invariant buffer == all && consumedUntil <= |all|
        invariant Consumed(all, consumedUntil, frames) && DecodeAll(frames) == Ok(packets)
        decreases |all| - consumedUntil
      {
        var frameLen, frameStart := FindFrame(buffer, consumedUntil);
        if frameLen.Err? {
          ConsumeEnd(all, consumedUntil, frames);
          break;
        }
        var frameEnd := frameStart + frameLen.value;
        ConsumeFrame(all, consumedUntil, frames, frameStart, frameEnd);
        DecodeAllSnoc(frames, buffer[frameStart..frameEnd]);
        frames := frames + [buffer[frameStart..frameEnd]];
        var packet := Decode(buffer[frameStart..frameEnd]);
        if packet.Err? {
          ErrorPrefix(frames, Deframe(all).frames);
          return Err(packet.error);
        }
        packets := packets + [packet.value];
        consumedUntil := frameEnd;
      }
      if consumedUntil > 0 {
        buffer := buffer[consumedUntil..];
      }
      return Ok(packets);
    }
  }

  lemma ConsumedNothing(buffer: seq<byte>)
    ensures Consumed(buffer, 0, [])
  {
  }

  // ---------- Whole runs: any cutting of the stream into chunks ----------

  /** Push the chunks one after the other, stopping at the first error as the forwarding loop does. */
  function PushChunks(buffer: seq<byte>, chunks: seq<seq<byte>>): Outcome {
    if chunks == [] then Outcome(Ok([]), buffer)
    else
      var before := PushChunks(buffer, chunks[..|chunks| - 1]);
      if before.result.Err? then before
      else
        var last := Push(before.buffer, chunks[|chunks| - 1]);
        if last.result.Err? then last
        else Outcome(Ok(before.result.value + last.result.value), last.buffer)
  }

  /** At no point do the kept tail and the next chunk exceed the buffer. */
  ghost predicate Fits(chunks: seq<seq<byte>>) {
    forall i :: 0 <= i < |chunks| ==> |Deframe(Flatten(chunks[..i])).tail| + |chunks[i]| <= MAX_PTY_BUFFER
  }

  lemma PushOnTail(s: seq<byte>, chunk: seq<byte>)
    requires DecodeAll(Deframe(s).frames).Ok?
    ensures
      var d := Deframe(s + chunk);
      var r := Push(Deframe(s).tail, chunk);
      && (r.result.Ok? <==> |Deframe(s).tail| + |chunk| <= MAX_PTY_BUFFER && DecodeAll(d.frames).Ok?)
      && (r.result.Ok? ==>
            r.buffer == d.tail && DecodeAll(d.frames) == Ok(DecodeAll(Deframe(s).frames).value + r.result.value))
  {
    hide Deframe, DecodeAll;
    ResumeFromTail(s, chunk);
    DecodeAllConcat(Deframe(s).frames, Deframe(Deframe(s).tail + chunk).frames);
  }

  lemma FlattenSnoc(chunks: seq<seq<byte>>)
    requires chunks != []
    ensures Flatten(chunks) == Flatten(chunks[..|chunks| - 1]) + chunks[|chunks| - 1]
  {
  }

  lemma FitsPrefix(chunks: seq<seq<byte>>)
    requires chunks != []
    ensures Fits(chunks) <==>
              && Fits(chunks[..|chunks| - 1])
              && |Deframe(Flatten(chunks[..|chunks| - 1])).tail| + |chunks[|chunks| - 1]| <= MAX_PTY_BUFFER
  {
    hide Deframe, Flatten;
    var n := |chunks| - 1;
    forall i | 0 <= i < n ensures chunks[..n][..i] == chunks[..i] && chunks[..n][i] == chunks[i] {
    }
  }

  lemma FramesOfPrefix(s: seq<byte>, more: seq<byte>)
    requires DecodeAll(Deframe(s).frames).Err?
    ensures DecodeAll(Deframe(s + more).frames).Err?
  {
    hide Deframe, DecodeAll;
    ResumeFromTail(s, more);
    FirstErrorWins(Deframe(s).frames, Deframe(Deframe(s).tail + more).frames);
  }

  /**
   * However the stream is cut, a run succeeds exactly when the chunks fit and every frame of the whole stream
   * decodes; it then delivers the packets of the whole stream in order and keeps exactly the undecided tail.
   */
  lemma {:induction false} ChunkingIsIrrelevant(chunks: seq<seq<byte>>)
    ensures
      var d := Deframe(Flatten(chunks));
      var r := PushChunks([], chunks);
      && (r.result.Ok? <==> Fits(chunks) && DecodeAll(d.frames).Ok?)
      && (r.result.Ok? ==> r.result == DecodeAll(d.frames) && r.buffer == d.tail)
  {
    if chunks == [] {
      assert Flatten<byte>([]) == [];
    } else {
      hide Deframe, DecodeAll, Push, Flatten, Fits;
      var n := |chunks| - 1;
      var s := Flatten(chunks[..n]);
      ChunkingIsIrrelevant(chunks[..n]);
      FlattenSnoc(chunks);
      FitsPrefix(chunks);
      if DecodeAll(Deframe(s).frames).Ok? {
        PushOnTail(s, chunks[n]);
      } else {
        FramesOfPrefix(s, chunks[n]);
      }
    }
  }

  /** After a frame that does not decode, the decoder never recovers: every later call fails too. */
  lemma StuckAfterDecodeError(buffer: seq<byte>, bytes: seq<byte>, more: seq<byte>)
    requires |buffer| + |bytes| <= MAX_PTY_BUFFER && Push(buffer, bytes).result.Err?
    ensures Push(Push(buffer, bytes).buffer, more).result.Err?
    ensures |buffer| + |bytes| + |more| <= MAX_PTY_BUFFER ==>
              Push(Push(buffer, bytes).buffer, more).result == Push(buffer, bytes).result
  {
    hide Deframe, DecodeAll;
    ResumeFromTail(buffer + bytes, more);
    FirstErrorWins(Deframe(buffer + bytes).frames, Deframe(Deframe(buffer + bytes).tail + more).frames);
  }

  // ---------- Streams written by one encoder ----------

  function EncodeStream(packets: seq<Packet>): seq<byte> {
    if packets == [] then []
    else EncodeStream(packets[..|packets| - 1]) + EncodeFrame(|packets| == 1, packets[|packets| - 1])
  }

  function Bodies(packets: seq<Packet>): (frames: seq<seq<byte>>)
    ensures |frames| == |packets|
  {
    if packets == [] then [] else Bodies(packets[..|packets| - 1]) + [FrameBody(packets[|packets| - 1])]
  }

  lemma {:induction false} ReceiveBody(st: Stream, s: seq<byte>)
    requires NoFlag(s) && st.synced
    ensures ReceiveAll(st, s) == st.(current := st.current + s, tail := st.tail + s)
  {
    if s == [] {
      assert st.current + s == st.current && st.tail + s == st.tail;
    } else {
      var n := |s| - 1;
      ReceiveBody(st, s[..n]);
      assert s == s[..n] + [s[n]];
      assert st.current + s == st.current + s[..n] + [s[n]];
      assert st.tail + s == st.tail + s[..n] + [s[n]];
    }
  }

  lemma ReceiveFrame(st: Stream, body: seq<byte>)
    requires st.synced && st.current == [] && NoFlag(body) && body != []
    ensures ReceiveAll(st, body + [FLAG]) == Stream(true, [], [FLAG], st.frames + [body])
  {
    hide ReceiveAll;
    ReceiveConcat(st, body, [FLAG]);
    ReceiveBody(st, body);
    assert [] + body == body;
    ReceiveOne(st.(current := body, tail := st.tail + body), FLAG);
  }

  lemma FirstFrame(body: seq<byte>)
    requires NoFlag(body) && body != []
    ensures Deframe([FLAG] + body + [FLAG]) == Stream(true, [], [FLAG], [body])
  {
    hide ReceiveAll;
    AppendAssoc([FLAG], body, [FLAG]);
    ReceiveConcat(NOTHING, [FLAG], body + [FLAG]);
    ReceiveOne(NOTHING, FLAG);
    assert [] + [FLAG] == [FLAG] && [] + [body] == [body];
    ReceiveFrame(Stream(true, [], [FLAG], []), body);
  }

  /** The automaton cuts an encoded stream exactly into the frame bodies that were encoded. */
  lemma {:induction false} DeframeEncoded(packets: seq<Packet>)
    ensures Deframe(EncodeStream(packets)) ==
            Stream(packets != [], [], if packets == [] then [] else [FLAG], Bodies(packets))
  {
    if packets != [] {
      hide ReceiveAll, FrameBody;
      var n := |packets| - 1;
      var before := EncodeStream(packets[..n]);
      var body := FrameBody(packets[n]);
      DeframeEncoded(packets[..n]);
      FrameBodyHasNoFlag(packets[n]);
      SnocOf(packets);
      if n == 0 {
        assert before == [] && Bodies(packets[..n]) == [] && [] + [body] == [body];
        assert [] + ([FLAG] + body + [FLAG]) == [FLAG] + body + [FLAG];
        FirstFrame(body);
      } else {
        assert before + ([] + body + [FLAG]) == before + (body + [FLAG]);
        ReceiveConcat(NOTHING, before, body + [FLAG]);
        ReceiveFrame(Deframe(before), body);
      }
    }
  }

  ghost predicate NonEmpty(packets: seq<Packet>) {
    forall i :: 0 <= i < |packets| ==> packets[i] != []
  }

  lemma {:induction false} DecodeBodies(packets: seq<Packet>)
    requires NonEmpty(packets)
    ensures DecodeAll(Bodies(packets)) == Ok(packets)
  {
    if packets != [] {
      hide DecodeFrame, FrameBody;
      var n := |packets| - 1;
      DecodeBodies(packets[..n]);
      DecodeUndoesEncode(packets[n]);
      DecodeAllSnoc(Bodies(packets[..n]), FrameBody(packets[n]));
      SnocOf(packets);
    }
  }

  ghost predicate AllAtMost(packets: seq<Packet>, limit: nat) {
    forall i :: 0 <= i < |packets| ==> |packets[i]| <= limit
  }

  lemma TailGrowth(st: Stream, s: seq<byte>)
    ensures |ReceiveAll(st, s).tail| <= |st.tail| + |s|
  {
  }

  /** While an encoded stream arrives, no more than one stuffed frame and one flag is ever kept. */
  lemma {:induction false} TailBound(packets: seq<Packet>, limit: nat, k: nat)
    requires AllAtMost(packets, limit) && k <= |EncodeStream(packets)|
    ensures |Deframe(EncodeStream(packets)[..k]).tail| <= 2 * limit + 8
  {
    hide ReceiveAll, EncodeFrame;
    var s := EncodeStream(packets);
    if packets == [] || k == |s| {
      assert s[..k] == s;
      DeframeEncoded(packets);
    } else {
      var n := |packets| - 1;
      var before := EncodeStream(packets[..n]);
      if k <= |before| {
        assert s[..k] == before[..k];
        TailBound(packets[..n], limit, k);
      } else {
        var part := EncodeFrame(n == 0, packets[n])[..k - |before|];
        assert s[..k] == before + part;
        ReceiveConcat(NOTHING, before, part);
        DeframeEncoded(packets[..n]);
        TailGrowth(Deframe(before), part);
        FrameSize(n == 0, packets[n]);
      }
    }
  }

  lemma FlattenIndex(chunks: seq<seq<byte>>, i: nat)
    requires i <= |chunks|
    ensures Flatten(chunks[..i]) <= Flatten(chunks)
  {
    hide Flatten;
    FlattenConcat(chunks[..i], chunks[i..]);
    assert chunks[..i] + chunks[i..] == chunks;
  }

  /**
   * A stream of non-empty packets written by one encoder and cut into chunks of at most `chunkLimit` bytes is
   * recovered exactly, and only the closing flag is kept. With reads of 4096 bytes the condition is
   * 2L + 8 + 4096 <= 65536 for packets of at most L bytes.
   */
  lemma StreamRecovery(packets: seq<Packet>, chunks: seq<seq<byte>>, limit: nat, chunkLimit: nat)
    requires NonEmpty(packets) && AllAtMost(packets, limit)
    requires Flatten(chunks) == EncodeStream(packets)
    requires forall i :: 0 <= i < |chunks| ==> |chunks[i]| <= chunkLimit
    requires 2 * limit + 8 + chunkLimit <= MAX_PTY_BUFFER
    ensures PushChunks([], chunks) == Outcome(Ok(packets), if packets == [] then [] else [FLAG])
  {
    hide Deframe, DecodeAll, Flatten, EncodeStream, PushChunks;
    forall i | 0 <= i < |chunks|
      ensures |Deframe(Flatten(chunks[..i])).tail| + |chunks[i]| <= MAX_PTY_BUFFER
    {
      FlattenIndex(chunks, i);
      var k := |Flatten(chunks[..i])|;
      TailBound(packets, limit, k);
      assert EncodeStream(packets)[..k] == Flatten(chunks[..i]);
    }
    DeframeEncoded(packets);
    DecodeBodies(packets);
    ChunkingIsIrrelevant(chunks);
  }
}
