/**
 * The operating system's byte streams as oracles: an unknown script decides how much every read returns and
 * how much every write takes. An exhausted script blocks.
 */
module Io {
  import opened Bytes

  datatype ReadEvent = Chunk(bytes: seq<byte>) | ReadFailed(kind: IoErrorKind)

  /** How a loop that reads until nothing more comes ends. */
  datatype ReadEnd = NotYet | EndOfStream | ReadError

  /** The bytes a script gives before it blocks, fails or ends. */
  function Readable(script: seq<ReadEvent>): seq<byte> {
    if script == [] || script[0].ReadFailed? || script[0].bytes == [] then []
    else script[0].bytes + Readable(script[1..])
  }

  function Ending(script: seq<ReadEvent>): ReadEnd {
    if script == [] then NotYet
    else if script[0].ReadFailed? then (if script[0].kind == WouldBlock then NotYet else ReadError)
    else if script[0].bytes == [] then EndOfStream
    else Ending(script[1..])
  }

  /** What is left of a script after it has blocked, failed or ended. */
  function Unread(script: seq<ReadEvent>): seq<ReadEvent> {
    if script == [] then []
    else if script[0].ReadFailed? || script[0].bytes == [] then script[1..]
    else Unread(script[1..])
  }

  lemma SplitChunk(bytes: seq<byte>, n: nat, rest: seq<ReadEvent>)
    requires n < |bytes|
    ensures Readable([Chunk(bytes)] + rest) == bytes[..n] + Readable([Chunk(bytes[n..])] + rest)
    ensures Ending([Chunk(bytes)] + rest) == Ending([Chunk(bytes[n..])] + rest)
    ensures Unread([Chunk(bytes)] + rest) == Unread([Chunk(bytes[n..])] + rest)
  {
    assert ([Chunk(bytes)] + rest)[1..] == rest && ([Chunk(bytes[n..])] + rest)[1..] == rest;
    assert bytes == bytes[..n] + bytes[n..];
    AppendAssoc(bytes[..n], bytes[n..], Readable(rest));
  }

  datatype WriteEvent = Accept(limit: nat) | WriteFailed(kind: IoErrorKind)

  /** What a first read with a buffer of that size returns of a script's first chunk. */
  function FirstRead(script: seq<ReadEvent>, max: nat): seq<byte> {
    if script == [] || script[0].ReadFailed? then []
    else if |script[0].bytes| <= max then script[0].bytes else script[0].bytes[..max]
  }

  class ByteSource {
    var script: seq<ReadEvent>
    /** Everything handed out so far, and what the latest read returned. */
    ghost var taken: seq<byte>
    ghost var last: ReadEvent

    constructor (script: seq<ReadEvent>)
      ensures this.script == script && taken == []
    {
      this.script := script;
      taken, last := [], ReadFailed(WouldBlock);
    }

    /** Bounds the number of reads that are left. */
    static ghost function Weight(script: seq<ReadEvent>): nat {
      if script == [] then 0
      else (if script[0].Chunk? then |script[0].bytes| else 0) + 1 + Weight(script[1..])
    }

    /** An empty chunk is the end of the stream. A chunk longer than the caller's buffer is handed out in parts. */
    method Read(max: nat) returns (event: ReadEvent)
      requires max > 0
      modifies this
      ensures last == event
      ensures event.Chunk? ==> |event.bytes| <= max && taken == old(taken) + event.bytes
      ensures event.ReadFailed? ==> taken == old(taken)
      ensures (if event.Chunk? then event.bytes else []) == FirstRead(old(script), max)
      ensures event.Chunk? && event.bytes != [] ==>
                && Weight(script) < Weight(old(script))
                && Readable(old(script)) == event.bytes + Readable(script) && Ending(old(script)) == Ending(script)
                && Unread(old(script)) == Unread(script)
      ensures event.ReadFailed? || event.bytes == [] ==>
                && Readable(old(script)) == [] && script == Unread(old(script))
                && Ending(old(script)) == (if event.Chunk? then EndOfStream
                                           else if event.kind == WouldBlock then NotYet else ReadError)
    {
      if script == [] {
        last := ReadFailed(WouldBlock);
        return ReadFailed(WouldBlock);
      }
      var next := script[0];
      last := next;
      ghost var was := script;
      script := script[1..];
      match next
      case ReadFailed(_) =>
        return next;
      case Chunk(bytes) =>
        if |bytes| <= max {
          taken := taken + bytes;
          return next;
        }
        assert was == [Chunk(bytes)] + was[1..];
        SplitChunk(bytes, max, was[1..]);
        script := [Chunk(bytes[max..])] + script;
        assert script[1..] == was[1..];
        taken, last := taken + bytes[..max], Chunk(bytes[..max]);
        return Chunk(bytes[..max]);
    }
  }

  /** What a write of n bytes returns, and the script after it. */
  function Answer(script: seq<WriteEvent>, n: nat): WriteEvent {
    if script == [] then WriteFailed(WouldBlock)
    else if script[0].WriteFailed? then script[0]
    else Accept(if script[0].limit <= n then script[0].limit else n)
  }

  function Later<T>(script: seq<T>): seq<T> {
    if script == [] then [] else script[1..]
  }

  /** The next write of at least one byte will take some. */
  predicate Ready(script: seq<WriteEvent>) {
    script != [] && script[0].Accept? && script[0].limit > 0
  }

  class ByteSink {
    var script: seq<WriteEvent>
    /** What the latest write returned. */
    ghost var last: WriteEvent
    /** Everything the stream took so far. */
    ghost var accepted: seq<byte>

    constructor (script: seq<WriteEvent>)
      ensures this.script == script && accepted == [] && last == WriteFailed(WouldBlock)
    {
      this.script := script;
      accepted := [];
      last := WriteFailed(WouldBlock);
    }

    /** `Accept(n)` in the answer means that exactly the first n bytes were taken. */
    method Write(bytes: seq<byte>) returns (event: WriteEvent)
      requires bytes != []
      modifies this
      ensures event.Accept? ==> event.limit <= |bytes| && accepted == old(accepted) + bytes[..event.limit]
      ensures event.WriteFailed? ==> accepted == old(accepted)
      ensures event == Answer(old(script), |bytes|) && script == Later(old(script))
      ensures event == Accept(0) || event.WriteFailed? <==> !Ready(old(script))
      ensures last == event
    {
      if script == [] {
        last := WriteFailed(WouldBlock);
        return WriteFailed(WouldBlock);
      }
      var next := script[0];
      script := script[1..];
      match next
      case WriteFailed(_) =>
        last := next;
        return next;
      case Accept(limit) =>
        var n := if limit <= |bytes| then limit else |bytes|;
        accepted := accepted + bytes[..n];
        last := Accept(n);
        return Accept(n);
    }
  }

  /** A connected socket: one stream in each direction, and writing may be shut down. */
  class TcpStream {
    const input: ByteSource
    const output: ByteSink
    var writeShut: bool

    constructor (input: ByteSource, output: ByteSink)
      ensures this.input == input && this.output == output && !writeShut
    {
      this.input, this.output, writeShut := input, output, false;
    }

    ghost function Footprint(): set<object> {
      {this, input, output}
    }

    method Write(bytes: seq<byte>) returns (event: WriteEvent)
      requires bytes != []
      modifies output
      ensures event.Accept? ==>
                event.limit <= |bytes| && output.accepted == old(output.accepted) + bytes[..event.limit]
      ensures event.WriteFailed? ==> output.accepted == old(output.accepted)
      ensures writeShut ==> event == WriteFailed(OtherIo)
      ensures !writeShut ==> event == Answer(old(output.script), |bytes|) && output.script == Later(old(output.script))
      ensures writeShut ==> output.script == old(output.script)
      ensures event == Accept(0) || event.WriteFailed? <==> writeShut || !Ready(old(output.script))
      ensures output.last == event
    {
      if writeShut {
        output.last := WriteFailed(OtherIo);
        return WriteFailed(OtherIo);
      }
      event := output.Write(bytes);
    }

    method ShutdownWrite()
      modifies this`writeShut
      ensures writeShut
    {
      writeShut := true;
    }
  }

  /** A blocking reader that either fills the caller's buffer or meets the end of the stream. */
  class ExactReader {
    var rest: seq<byte>

    constructor (bytes: seq<byte>)
      ensures rest == bytes
    {
      rest := bytes;
    }

    method ReadExact(n: nat) returns (result: Result<seq<byte>>)
      modifies this
      ensures n <= |old(rest)| ==> result == Ok(old(rest)[..n]) && rest == old(rest)[n..]
      ensures n > |old(rest)| ==> result == Err(Io(UnexpectedEof)) && rest == []
    {
      if n <= |rest| {
        result := Ok(rest[..n]);
        rest := rest[n..];
      } else {
        result := Err(Error.Io(UnexpectedEof));
        rest := [];
      }
    }
  }
}
