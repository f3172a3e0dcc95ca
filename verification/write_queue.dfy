/** The queue of chunks waiting for a descriptor that takes only part of what it is offered. */
module WriteQueues {
  import opened Bytes
  import opened Io

  const WROTE_ZERO: Error := Pppd("writer returned zero while queue had pending data")

  lemma {:induction false} FlattenFront<T>(chunks: seq<seq<T>>)
    requires chunks != []
    ensures Flatten(chunks) == chunks[0] + Flatten(chunks[1..])
  {
    if |chunks| == 1 {
      assert chunks[..0] == [] && chunks[1..] == [];
    } else {
      var n := |chunks| - 1;
      FlattenFront(chunks[..n]);
      assert chunks[..n][1..] == chunks[1..][..n - 1];
      AppendAssoc(chunks[0], Flatten(chunks[1..][..n - 1]), chunks[n]);
    }
  }

  predicate InOrder<T>(chunks: seq<seq<T>>, offset: nat) {
    && (forall i :: 0 <= i < |chunks| ==> chunks[i] != [])
    && (if chunks == [] then offset == 0 else offset < |chunks[0]|)
  }

  function Unsent<T>(chunks: seq<seq<T>>, offset: nat): seq<T>
    requires InOrder(chunks, offset)
  {
    if chunks == [] then [] else chunks[0][offset..] + Flatten(chunks[1..])
  }

  lemma UnsentAfterPush<T>(chunks: seq<seq<T>>, offset: nat, bytes: seq<T>)
    requires InOrder(chunks, offset) && bytes != []
    ensures InOrder(chunks + [bytes], offset)
    ensures Unsent(chunks + [bytes], offset) == Unsent(chunks, offset) + bytes
  {
    var t := chunks + [bytes];
    if chunks == [] {
      assert t[1..] == [] && t[0][0..] == bytes;
    } else {
      assert t[1..] == chunks[1..] + [bytes];
      FlattenConcat(chunks[1..], [bytes]);
      assert Flatten([bytes]) == Flatten<T>([]) + bytes == bytes;
      AppendAssoc(chunks[0][offset..], Flatten(chunks[1..]), bytes);
    }
  }

  /** What is left after n bytes of the front chunk were taken; a finished chunk is dropped. */
  lemma UnsentAfterWrite<T>(chunks: seq<seq<T>>, offset: nat, n: nat, rest: seq<seq<T>>, at: nat)
    requires InOrder(chunks, offset) && chunks != [] && offset + n <= |chunks[0]|
    requires if offset + n == |chunks[0]| then rest == chunks[1..] && at == 0 else rest == chunks && at == offset + n
    ensures InOrder(rest, at)
    ensures Unsent(chunks, offset) == chunks[0][offset..][..n] + Unsent(rest, at)
  {
    var front := chunks[0][offset..];
    assert front == front[..n] + front[n..];
    AppendAssoc(front[..n], front[n..], Flatten(chunks[1..]));
    if offset + n == |chunks[0]| {
      assert front[n..] == [] && [] + Flatten(chunks[1..]) == Flatten(chunks[1..]);
      if rest != [] {
        FlattenFront(rest);
        assert rest[0][0..] == rest[0];
      }
    } else {
      assert front[n..] == chunks[0][at..];
    }
  }

  /** The error that the latest write amounts to, if it does. */
  function ErrorOf(event: WriteEvent): Option<Error> {
    if event == Accept(0) then Some(WROTE_ZERO)
    else if event.WriteFailed? && event.kind != WouldBlock then Some(Error.Io(event.kind))
    else None
  }

  class WriteQueue {
    var chunks: seq<seq<byte>>
    var offset: nat

    /** No chunk is empty, and the offset stays inside the front chunk. */
    ghost predicate Valid()
      reads this
    {
      InOrder(chunks, offset)
    }

    /** The bytes still to be written. */
    ghost function Pending(): seq<byte>
      reads this
      requires Valid()
    {
      Unsent(chunks, offset)
    }

    constructor ()
      ensures Valid() && Pending() == []
    {
      chunks := [];
      offset := 0;
    }

    method Push(bytes: seq<byte>)
      requires Valid()
      modifies this
      ensures Valid() && Pending() == old(Pending()) + bytes
      ensures old(chunks) <= chunks
    {
      hide InOrder, Unsent;
      if bytes != [] {
        UnsentAfterPush(chunks, offset, bytes);
        chunks := chunks + [bytes];
      } else {
        assert Pending() + bytes == Pending();
      }
    }

    predicate IsEmpty()
      reads this
    {
      chunks == []
    }

    /** Whatever the sink takes and however the call ends, no byte is lost, repeated or reordered. */
    method WriteAvailable(sink: ByteSink) returns (error: Option<Error>)
      requires Valid()
      modifies this, sink
      ensures Valid() && sink.accepted + Pending() == old(sink.accepted + Pending())
      ensures error == if old(chunks) == [] then None else ErrorOf(sink.last)
      ensures error.Some? ==> chunks != []
      ensures error.Some? ==> sink.last != WriteFailed(WouldBlock) && (sink.last.Accept? ==> sink.last.limit == 0)
      ensures error.None? && chunks != [] ==> sink.last == WriteFailed(WouldBlock)
      ensures old(chunks != [] && Ready(sink.script)) ==> |sink.accepted| > |old(sink.accepted)|
    {
      hide Unsent, Ready;
      while chunks != []
        invariant || (sink.script == old(sink.script) && chunks == old(chunks))
                  || (|sink.accepted| > |old(sink.accepted)| && old(chunks) != [] && ErrorOf(sink.last).None?)
        invariant Valid() && sink.accepted + Pending() == old(sink.accepted + Pending())
        decreases |Pending()|
      {
        ghost var was, at, accepted := chunks, offset, sink.accepted;
        var event := sink.Write(chunks[0][offset..]);
        match event
        case WriteFailed(kind) =>
          if kind == WouldBlock {
            return None;
          }
          return Some(Error.Io(kind));
        case Accept(n) =>
          if n == 0 {
            assert sink.accepted == accepted + [] == accepted;
            return Some(WROTE_ZERO);
          }
          offset := offset + n;
          if offset == |chunks[0]| {
            chunks := chunks[1..];
            offset := 0;
          }
          UnsentAfterWrite(was, at, n, chunks, offset);
          AppendAssoc(accepted, was[0][at..][..n], Unsent(chunks, offset));
      }
      return None;
    }
  }
}
