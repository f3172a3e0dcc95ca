/** The sessions of the SOCKS proxy that connect client and remote directly, without the tunnel. */
module DirectSessions {
  import opened Bytes
  import opened Io
  import opened PumpQueues

  // ---------- One direction ----------

  /**
   * A direction of a session: its queue, what was taken from the source and accepted by the sink, what hard write
   * failures dropped, what the two streams will do, whether the sink was shut down for writing, and the flags.
   */
  datatype Flow = Flow(
    queue: seq<byte>, taken: seq<byte>, accepted: seq<byte>, lost: seq<Drop<byte>>,
    input: seq<ReadEvent>, output: seq<WriteEvent>, shut: bool, sourceClosed: bool, sinkClosed: bool)

  ghost predicate FlowBalanced(f: Flow) {
    Balanced(f.taken, f.accepted, f.queue, f.lost)
  }

  function WritingOf(f: Flow): Written {
    WritingTo(f.shut, f.output, |f.queue|)
  }

  function AfterWrite(f: Flow): Flow {
    var w := WritingOf(f);
    var accepted := f.accepted + f.queue[..w.taken];
    f.(queue := f.queue[w.taken + w.dropped..], accepted := accepted,
       lost := Noted(f.lost, |accepted|, f.queue[w.taken..w.taken + w.dropped]),
       output := w.script, sinkClosed := f.sinkClosed || w.end != Waiting)
  }

  /** The source is read only into an empty queue; its end shuts the sink down for writing at once. */
  function AfterRead(f: Flow): Flow {
    if f.sourceClosed || f.queue != [] then f
    else
      var ended := Ending(f.input) != NotYet;
      f.(queue := Readable(f.input), taken := f.taken + Readable(f.input), input := Unread(f.input),
         sourceClosed := ended, shut := f.shut || ended)
  }

  /** A write does not ask about the source, nor a read about the sink's flag. */
  lemma OtherFlags(f: Flow, closed: bool)
    ensures AfterWrite(f.(sourceClosed := closed)) == AfterWrite(f).(sourceClosed := closed)
    ensures AfterRead(f.(sinkClosed := closed)) == AfterRead(f).(sinkClosed := closed)
  {
    hide WritingTo, Noted, Readable, Ending, Unread;
  }

  lemma WrittenOut(f: Flow, out: seq<byte>, lost: seq<byte>, rest: seq<byte>)
    requires Cut(f.queue, WritingOf(f), out, lost, rest)
    ensures AfterWrite(f).queue == rest && AfterWrite(f).accepted == f.accepted + out
    ensures AfterWrite(f).lost == Noted(f.lost, |f.accepted + out|, lost)
    ensures AfterWrite(f).sinkClosed == (f.sinkClosed || WritingOf(f).end != Waiting)
    ensures AfterWrite(f).output == WritingOf(f).script
    ensures AfterWrite(f) == f.(queue := rest, accepted := f.accepted + out,
                                lost := AfterWrite(f).lost,
                                output := WritingOf(f).script, sinkClosed := AfterWrite(f).sinkClosed)
  {
    hide WritingTo, Noted;
    CutOf(f.queue, WritingOf(f), out, lost, rest);
  }

  lemma SinkCloses(p: Flows)
    ensures
      var closed := p.up.sinkClosed || WritingOf(p.up).end != Waiting;
      && AfterWrite(p.up).sinkClosed == closed
      && WriteUp(p) == Flows(AfterWrite(p.up), p.down.(sourceClosed := closed))
  {
    hide WritingTo, Noted;
  }

  lemma WriteKeepsBalance(f: Flow)
    requires FlowBalanced(f)
    ensures FlowBalanced(AfterWrite(f))
  {
    hide Balanced, WritingTo, Noted;
    var w := WritingOf(f);
    var out, lost, rest := f.queue[..w.taken], f.queue[w.taken..w.taken + w.dropped], f.queue[w.taken + w.dropped..];
    ThreeParts(f.queue, w.taken, w.taken + w.dropped);
    AppendAssoc(f.accepted, out, lost);
    AppendAssoc(f.accepted, out + lost, rest);
    BalanceAfterWrite(f.taken, f.accepted, f.queue, f.lost, f.accepted + out, rest, lost);
  }

  lemma ThreeParts<T>(s: seq<T>, i: nat, j: nat)
    requires i <= j <= |s|
    ensures s == s[..i] + s[i..j] + s[j..]
  {
  }

  lemma ReadKeepsBalance(f: Flow)
    requires FlowBalanced(f)
    ensures FlowBalanced(AfterRead(f))
  {
    hide Balanced, Readable, Ending, Unread;
    var more := Readable(f.input);
    assert [] + more == more;
    BalanceAfterRead(f.taken, f.accepted, f.queue, f.lost, more);
  }

  // ---------- A round of both ----------

  /** The client's flow to the remote and the remote's to the client; either side's source is the other's sink. */
  datatype Flows = Flows(up: Flow, down: Flow)

  function Mirrored(p: Flows): Flows {
    Flows(p.down, p.up)
  }

  /** A flag of one direction is the other flag of the other direction. */
  function WriteUp(p: Flows): Flows {
    var f := AfterWrite(p.up);
    Flows(f, p.down.(sourceClosed := f.sinkClosed))
  }

  function ReadUp(p: Flows): Flows {
    var f := AfterRead(p.up);
    Flows(f, p.down.(sinkClosed := f.sourceClosed))
  }

  /** Write both ways, then read both ways. */
  function Round(p: Flows): Flows {
    Mirrored(ReadUp(Mirrored(ReadUp(Mirrored(WriteUp(Mirrored(WriteUp(p))))))))
  }

  function Rounds(p: Flows, n: nat): Flows {
    if n == 0 then p else Round(Rounds(p, n - 1))
  }

  /** The order of the two directions does not matter. */
  lemma RoundParts(p: Flows)
    ensures
      var u, d := AfterWrite(p.up), AfterWrite(p.down);
      var u', d' := AfterRead(u.(sourceClosed := d.sinkClosed)), AfterRead(d.(sourceClosed := u.sinkClosed));
      Round(p) == Flows(u'.(sinkClosed := d'.sourceClosed), d'.(sinkClosed := u'.sourceClosed))
  {
    hide AfterWrite, AfterRead;
    var u, d := AfterWrite(p.up), AfterWrite(p.down);
    var u' := AfterRead(u.(sourceClosed := d.sinkClosed));
    OtherFlags(p.down, u.sinkClosed);
    OtherFlags(d.(sourceClosed := u.sinkClosed), u'.sourceClosed);
  }

  lemma RoundMirrors(p: Flows)
    ensures Round(Mirrored(p)) == Mirrored(Round(p))
  {
    hide AfterWrite, AfterRead, Round;
    RoundParts(p);
    RoundParts(Mirrored(p));
  }

  /** What holds of the one direction holds of the other. */
  lemma {:induction false} RoundsMirror(p: Flows, n: nat)
    ensures Rounds(Mirrored(p), n) == Mirrored(Rounds(p, n))
  {
    hide Round;
    if n > 0 {
      RoundsMirror(p, n - 1);
      RoundMirrors(Rounds(p, n - 1));
    }
  }

  lemma RoundUp(p: Flows)
    ensures
      var f := AfterWrite(p.up).(sourceClosed := AfterWrite(p.down).sinkClosed);
      Round(p).up == AfterRead(f).(sinkClosed := Round(p).down.sourceClosed)
  {
    hide AfterWrite, AfterRead, Round;
    RoundParts(p);
  }

  /** This round reads the source: it is open after the write, and that write left nothing of the queue. */
  predicate Reads(p: Flows) {
    var w := WritingOf(p.up);
    !p.down.sinkClosed && WritingOf(p.down).end == Waiting && w.taken + w.dropped == |p.up.queue|
  }

  /**
   * What a round does to a direction. It takes bytes, meets the end of the source or shuts the sink only if the
   * write emptied the queue: no byte that was queued before is overtaken or cut off by the end of the stream.
   */
  lemma RoundEffects(p: Flows)
    ensures
      var w, f, ends := WritingOf(p.up), Round(p).up, Reads(p) && Ending(p.up.input) != NotYet;
      && f.accepted == p.up.accepted + p.up.queue[..w.taken] && f.output == w.script
      && f.queue == (if Reads(p) then Readable(p.up.input) else p.up.queue[w.taken + w.dropped..])
      && f.taken == p.up.taken + (if Reads(p) then Readable(p.up.input) else [])
      && f.input == (if Reads(p) then Unread(p.up.input) else p.up.input)
      && f.shut == (p.up.shut || ends)
      && f.sourceClosed == (p.down.sinkClosed || WritingOf(p.down).end != Waiting || ends)
      && Round(p).down.sinkClosed == f.sourceClosed
    ensures Round(p).up.taken != p.up.taken || Round(p).up.shut != p.up.shut ==>
              WritingOf(p.up).taken + WritingOf(p.up).dropped == |p.up.queue|
  {
    hide WritingTo, Readable, Ending, Unread, Noted, Round;
    RoundParts(p);
    AppendEmpty(p.up.taken, []);
  }

  // ---------- Conservation ----------

  /** Some write of this round fails hard. */
  predicate FailsHard(f: Flow) {
    WritingOf(f).end == FailedHard
  }

  lemma RoundLosesIff(p: Flows)
    ensures p.up.lost <= Round(p).up.lost
    ensures Round(p).up.lost == p.up.lost <==> !FailsHard(p.up)
  {
    hide WritingTo, Readable, Ending, Unread, Round;
    RoundUp(p);
    var w := WritingOf(p.up);
    assert |p.up.queue[w.taken..w.taken + w.dropped]| == w.dropped;
  }

  /** In none of the first n rounds a write to the remote fails hard. */
  ghost predicate NoneFails(p: Flows, n: nat) {
    forall i :: 0 <= i < n ==> !FailsHard(Rounds(p, i).up)
  }

  /** Over any number of rounds a direction loses bytes exactly when some write of it failed hard. */
  lemma {:induction false} LosesIff(p: Flows, n: nat)
    ensures p.up.lost <= Rounds(p, n).up.lost
    ensures Rounds(p, n).up.lost == p.up.lost <==> NoneFails(p, n)
  {
    hide Round, FailsHard;
    if n > 0 {
      LosesIff(p, n - 1);
      RoundLosesIff(Rounds(p, n - 1));
      assert NoneFails(p, n) <==> NoneFails(p, n - 1) && !FailsHard(Rounds(p, n - 1).up);
      PrefixAntisymmetric(p.up.lost, Rounds(p, n - 1).up.lost, Rounds(p, n).up.lost);
    }
  }

  lemma PrefixAntisymmetric<T>(a: seq<T>, b: seq<T>, c: seq<T>)
    requires a <= b <= c
    ensures a <= c && (a == c <==> a == b && b == c)
  {
  }

  lemma RoundKeepsBalance(p: Flows)
    requires FlowBalanced(p.up) && FlowBalanced(p.down)
    ensures FlowBalanced(Round(p).up) && FlowBalanced(Round(p).down)
  {
    hide AfterWrite, AfterRead, Round;
    RoundParts(p);
    WriteKeepsBalance(p.up);
    WriteKeepsBalance(p.down);
    var u, d := AfterWrite(p.up), AfterWrite(p.down);
    ReadKeepsBalance(u.(sourceClosed := d.sinkClosed));
    ReadKeepsBalance(d.(sourceClosed := u.sinkClosed));
  }

  lemma {:induction false} RoundsKeepBalance(p: Flows, n: nat)
    requires FlowBalanced(p.up) && FlowBalanced(p.down)
    ensures FlowBalanced(Rounds(p, n).up) && FlowBalanced(Rounds(p, n).down)
  {
    hide Round, FlowBalanced;
    if n > 0 {
      RoundsKeepBalance(p, n - 1);
      RoundKeepsBalance(Rounds(p, n - 1));
    }
  }

  /**
   * Conservation: over any number of rounds what was accepted and then what is queued is what was taken, byte for
   * byte, exactly when no write of that direction failed hard.
   */
  lemma IntactUnlessFailedHard(p: Flows, n: nat)
    requires FlowBalanced(p.up) && FlowBalanced(p.down) && p.up.lost == []
    ensures
      var f := Rounds(p, n).up;
      f.accepted + f.queue == f.taken <==> NoneFails(p, n)
  {
    hide Rounds, NoneFails, Balanced;
    var f := Rounds(p, n).up;
    RoundsKeepBalance(p, n);
    LosesIff(p, n);
    IntactIff(f.taken, f.accepted, f.queue, f.lost);
  }

  // ---------- Half-close ----------

  /** This round reads the end of the client's stream: writing left nothing queued and the client not closed. */
  predicate ReadsEnd(p: Flows) {
    AfterWrite(p.up).queue == [] && !AfterWrite(p.down).sinkClosed && Ending(p.up.input) != NotYet
  }

  /** After the end of the source: the sink is shut, and what is queued for it will only be dropped. */
  predicate Doomed(p: Flows) {
    p.up.shut && p.up.sourceClosed && p.down.sinkClosed
  }

  lemma EndDooms(p: Flows)
    requires ReadsEnd(p)
    ensures Doomed(Round(p)) && Round(p).up.queue == Readable(p.up.input)
    ensures Round(p).up.taken == p.up.taken + Readable(p.up.input)
    ensures Round(p).up.accepted == AfterWrite(p.up).accepted && Round(p).up.lost == AfterWrite(p.up).lost
  {
    hide WritingTo, Readable, Ending, Unread, Noted, Round;
    RoundParts(p);
  }

  lemma DoomedDrops(p: Flows)
    requires Doomed(p)
    ensures Doomed(Round(p)) && Round(p).up.accepted == p.up.accepted && p.up.lost <= Round(p).up.lost
    ensures p.up.queue == [] ==> Round(p).up.queue == [] && Round(p).up.lost == p.up.lost
    ensures p.up.queue != [] ==> Round(p).up.lost != p.up.lost
  {
    hide Readable, Ending, Unread, Round, Writing;
    RoundUp(p);
    RoundsLink(p);
    RoundLosesIff(p);
    NothingToWrite(p.up.shut, p.up.output);
    AppendEmpty(p.up.accepted, p.up.queue[..WritingOf(p.up).taken]);
  }

  /** The bytes of the dropped chunks, in their order. */
  function BytesOf(drops: seq<Drop<byte>>): seq<byte> {
    if drops == [] then [] else BytesOf(drops[..|drops| - 1]) + drops[|drops| - 1].bytes
  }

  lemma BytesOfNoted(drops: seq<Drop<byte>>, at: nat, bytes: seq<byte>)
    ensures BytesOf(Noted(drops, at, bytes)) == BytesOf(drops) + bytes
  {
    if bytes != [] {
      assert Noted(drops, at, bytes)[..|drops|] == drops;
    }
  }

  /** What is queued for a shut sink is dropped, and nothing else is. */
  lemma DoomedMoves(p: Flows)
    requires Doomed(p)
    ensures BytesOf(Round(p).up.lost) + Round(p).up.queue == BytesOf(p.up.lost) + p.up.queue
  {
    hide Readable, Ending, Unread, Round, Writing, Noted, BytesOf;
    RoundUp(p);
    RoundsLink(p);
    var w, f := WritingOf(p.up), AfterWrite(p.up);
    NothingToWrite(p.up.shut, p.up.output);
    var lost := p.up.queue[w.taken..w.taken + w.dropped];
    BytesOfNoted(p.up.lost, |f.accepted|, lost);
    AppendAssoc(BytesOf(p.up.lost), lost, f.queue);
    assert w.taken == 0 && p.up.queue == lost + f.queue;
  }

  lemma RoundsLink(p: Flows)
    ensures Round(p).down.sinkClosed == Round(p).up.sourceClosed
    ensures p.down.sinkClosed ==> AfterWrite(p.down).sinkClosed
  {
    hide AfterRead, WritingTo, Round;
    RoundParts(p);
  }

  /**
   * When the client's stream ends, the bytes read in that same round are queued and the remote is shut down for
   * writing at once. They are never delivered, however many rounds follow; the remote gets what it had got by the
   * write of that round, and nothing is dropped from then on exactly when the stream ended without bytes.
   */
  lemma {:induction false} HalfCloseDropsLastBytes(p: Flows, n: nat)
    requires ReadsEnd(p)
    ensures
      var f := Rounds(Round(p), n).up;
      && Doomed(Rounds(Round(p), n))
      && f.accepted == AfterWrite(p.up).accepted
      && AfterWrite(p.up).lost <= f.lost
      && BytesOf(f.lost) + f.queue == BytesOf(AfterWrite(p.up).lost) + Readable(p.up.input)
      && (Readable(p.up.input) == [] ==> f.queue == [] && f.lost == AfterWrite(p.up).lost)
      && (Readable(p.up.input) != [] ==> if n == 0 then f.queue != [] else f.lost != AfterWrite(p.up).lost)
  {
    hide AfterWrite, Round, Readable, ReadsEnd, Doomed, BytesOf;
    if n == 0 {
      EndDooms(p);
    } else {
      HalfCloseDropsLastBytes(p, n - 1);
      var before, after := Rounds(Round(p), n - 1), Rounds(Round(p), n);
      DoomedDrops(before);
      DoomedMoves(before);
      PrefixAntisymmetric(AfterWrite(p.up).lost, before.up.lost, after.up.lost);
    }
  }

  /**
   * Over any run: until the round that meets the end of the client's stream nothing is lost but by a hard failure,
   * and then, however many rounds follow, exactly the bytes of that round. The remote gets all that was read before.
   */
  lemma OnlyLastBytesAreLost(start: Flows, m: nat, n: nat)
    requires FlowBalanced(start.up) && FlowBalanced(start.down) && start.up.lost == []
    requires ReadsEnd(Rounds(start, m)) && NoneFails(start, m + 1)
    ensures
      var p := Rounds(start, m);
      var f := Rounds(Round(p), n).up;
      f.accepted == p.up.taken && BytesOf(f.lost) + f.queue == Readable(p.up.input)
  {
    hide AfterRead, FlowBalanced, WritingTo, Round, Readable, Rounds;
    var p := Rounds(start, m);
    RoundsKeepBalance(start, m);
    LosesIff(start, m);
    assert !FailsHard(Rounds(start, m).up) && NoneFails(start, m);
    HalfCloseDropsLastBytes(p, n);
    WriteKeepsBalance(p.up);
    var g := AfterWrite(p.up);
    NothingDropped(p.up);
    BalancedNow(g);
    IntactIff(g.taken, g.accepted, g.queue, g.lost);
    AppendEmpty(g.accepted, g.queue);
    assert BytesOf([]) + Readable(p.up.input) == Readable(p.up.input);
  }

  lemma NothingDropped(f: Flow)
    requires !FailsHard(f)
    ensures AfterWrite(f).lost == f.lost && AfterWrite(f).taken == f.taken
  {
    hide WritingTo;
  }

  lemma BalancedNow(f: Flow)
    requires FlowBalanced(f)
    ensures Balanced(f.taken, f.accepted, f.queue, f.lost)
  {
  }

  /** The same the other way: a download whose last bytes arrive with the end of the remote's stream. */
  lemma RemoteCloseDropsLastBytes(p: Flows, n: nat)
    requires ReadsEnd(Mirrored(p))
    ensures
      var f := Rounds(Round(p), n).down;
      && f.accepted == AfterWrite(p.down).accepted
      && (n > 0 ==> (f.lost == AfterWrite(p.down).lost <==> Readable(p.down.input) == []))
  {
    hide AfterWrite, Round, Rounds, Readable, ReadsEnd, Doomed;
    HalfCloseDropsLastBytes(Mirrored(p), n);
    RoundMirrors(p);
    RoundsMirror(Round(p), n);
  }

  // ---------- When nothing can happen any more ----------

  /** The flags of the two directions are the same two. */
  predicate Linked(p: Flows) {
    p.up.sourceClosed == p.down.sinkClosed && p.down.sourceClosed == p.up.sinkClosed
  }

  predicate Over(p: Flows) {
    p.up.sourceClosed && p.down.sourceClosed && p.up.queue == [] && p.down.queue == []
  }

  /** The same session with other streams before it. */
  function With(f: Flow, input: seq<ReadEvent>, output: seq<WriteEvent>): Flow {
    f.(input := input, output := output)
  }

  predicate Still(f: Flow, g: Flow) {
    f.taken == g.taken && f.accepted == g.accepted && f.lost == g.lost
  }

  lemma OverIsStill(p: Flows)
    requires Linked(p) && Over(p)
    ensures Still(p.up, Round(p).up) && Still(p.down, Round(p).down)
  {
    hide Readable, Ending, Unread, Writing;
    RoundParts(p);
    NothingToWrite(p.up.shut, p.up.output);
    NothingToWrite(p.down.shut, p.down.output);
    AppendEmpty(p.up.accepted, []);
    AppendEmpty(p.down.accepted, []);
  }

  const NEXT_READ: seq<ReadEvent> := [Chunk([0])]
  const NEXT_WRITE: seq<WriteEvent> := [Accept(1)]

  lemma CanMove(p: Flows)
    requires Linked(p) && (p.up.queue != [] || (p.down.queue == [] && !p.up.sourceClosed))
    ensures
      var q := Flows(With(p.up, NEXT_READ, NEXT_WRITE), With(p.down, NEXT_READ, NEXT_WRITE));
      !Still(q.up, Round(q).up)
  {
    hide Round, Unread, Ending, WritingTo, Noted;
    var q := Flows(With(p.up, NEXT_READ, NEXT_WRITE), With(p.down, NEXT_READ, NEXT_WRITE));
    RoundEffects(q);
    RoundLosesIff(q);
    if p.up.queue != [] {
      if p.up.shut {
        ShutFails(q.up);
      } else {
        TakesIffReady(false, NEXT_WRITE, |p.up.queue|);
        assert |q.up.queue[..WritingOf(q.up).taken]| > 0;
      }
    } else {
      NothingToWrite(p.up.shut, NEXT_WRITE);
      NothingToWrite(p.down.shut, NEXT_WRITE);
      assert NEXT_READ[1..] == [] && Readable(NEXT_READ) == [0];
    }
  }

  lemma ShutFails(f: Flow)
    requires f.shut && f.queue != []
    ensures FailsHard(f)
  {
  }

  /** A session is over exactly when a round moves nothing, whatever the two streams do. */
  lemma OverIffStill(p: Flows)
    requires Linked(p)
    ensures Over(p) <==>
            forall i, o, i', o' ::
              var q := Flows(With(p.up, i, o), With(p.down, i', o'));
              Still(q.up, Round(q).up) && Still(q.down, Round(q).down)
  {
    hide Round, Still;
    if Over(p) {
      forall i, o, i', o'
        ensures
          var q := Flows(With(p.up, i, o), With(p.down, i', o'));
          Still(q.up, Round(q).up) && Still(q.down, Round(q).down)
      {
        OverIsStill(Flows(With(p.up, i, o), With(p.down, i', o')));
      }
    } else {
      var q := Flows(With(p.up, NEXT_READ, NEXT_WRITE), With(p.down, NEXT_READ, NEXT_WRITE));
      if p.up.queue != [] || (p.down.queue == [] && !p.up.sourceClosed) {
        CanMove(p);
      } else {
        CanMove(Mirrored(p));
        RoundMirrors(q);
      }
    }
  }

  // ---------- Sessions ----------

  const REMOTE_TOOK_NOTHING := "direct remote write returned zero"
  const REMOTE_WRITE_FAILED := "direct remote write failed"
  const CLIENT_TOOK_NOTHING := "direct client write returned zero"
  const CLIENT_WRITE_FAILED := "direct client write failed"
  const CLIENT_CLOSED := "client closed connection"
  const CLIENT_READ_FAILED := "direct client read failed"
  const REMOTE_CLOSED := "direct remote closed connection"
  const REMOTE_READ_FAILED := "direct remote read failed"

  /** Why a direction reads no more, if it reads now and meets the end. */
  function EndReason(f: Flow, closed: string, failed: string): Option<string> {
    if f.sourceClosed || f.queue != [] then None else ReadReason(Ending(f.input), closed, failed)
  }

  /** The reason after a round: the first that its writes, then its reads, to the remote before to the client, give. */
  function RoundReason(p: Flows, reason: Option<string>): Option<string> {
    var p1 := WriteUp(p);
    var p2 := Mirrored(WriteUp(Mirrored(p1)));
    var p3 := ReadUp(p2);
    var r1 := FirstReason(reason, WriteReason(WritingOf(p.up).end, REMOTE_TOOK_NOTHING, REMOTE_WRITE_FAILED));
    var r2 := FirstReason(r1, WriteReason(WritingOf(p1.down).end, CLIENT_TOOK_NOTHING, CLIENT_WRITE_FAILED));
    var r3 := FirstReason(r2, EndReason(p2.up, CLIENT_CLOSED, CLIENT_READ_FAILED));
    FirstReason(r3, EndReason(p3.down, REMOTE_CLOSED, REMOTE_READ_FAILED))
  }

  /** A round that gives a first reason gives the one that says what its streams did. */
  lemma RoundReasonIs(p: Flows, reason: Option<string>)
    ensures RoundReason(p, reason) ==
            if reason.Some? then reason
            else if WritingOf(p.up).end == WroteNothing then Some(REMOTE_TOOK_NOTHING)
            else if WritingOf(p.up).end == FailedHard then Some(REMOTE_WRITE_FAILED)
            else if WritingOf(p.down).end == WroteNothing then Some(CLIENT_TOOK_NOTHING)
            else if WritingOf(p.down).end == FailedHard then Some(CLIENT_WRITE_FAILED)
            else if Reads(p) && Ending(p.up.input) == EndOfStream then Some(CLIENT_CLOSED)
            else if Reads(p) && Ending(p.up.input) == ReadError then Some(CLIENT_READ_FAILED)
            else if Reads(Mirrored(p)) && Ending(p.down.input) == EndOfStream then Some(REMOTE_CLOSED)
            else if Reads(Mirrored(p)) && Ending(p.down.input) == ReadError then Some(REMOTE_READ_FAILED)
            else None
  {
    hide WritingTo, Readable, Ending, Unread, Noted;
  }

  class DirectProxySession {
    const client: TcpStream
    const remote: TcpStream
    var toRemote: seq<byte>
    var toClient: seq<byte>
    var localClosed: bool
    var remoteClosed: bool
    var clientToRemoteBytes: nat
    var remoteToClientBytes: nat
    var closeReason: Option<string>
    /** What hard write failures dropped, towards the remote and towards the client. */
    ghost var lostUp: seq<Drop<byte>>
    ghost var lostDown: seq<Drop<byte>>

    ghost function Footprint(): set<object> {
      {this} + client.Footprint() + remote.Footprint()
    }

    ghost function Up(): Flow
      reads `toRemote, `lostUp, `localClosed, `remoteClosed, client.input, remote.output, remote`writeShut
    {
      Flow(toRemote, client.input.taken, remote.output.accepted, lostUp,
           client.input.script, remote.output.script, remote.writeShut, localClosed, remoteClosed)
    }

    ghost function Down(): Flow
      reads `toClient, `lostDown, `localClosed, `remoteClosed, remote.input, client.output, client`writeShut
    {
      Flow(toClient, remote.input.taken, client.output.accepted, lostDown,
           remote.input.script, client.output.script, client.writeShut, remoteClosed, localClosed)
    }

    ghost function View(): Flows
      reads this, client, client.input, client.output, remote, remote.input, remote.output
    {
      Flows(Up(), Down())
    }

    ghost predicate Valid()
      reads this, client, client.input, client.output, remote, remote.input, remote.output
    {
      && client.Footprint() !! remote.Footprint() && FlowBalanced(Up()) && FlowBalanced(Down())
      && clientToRemoteBytes == |remote.output.accepted|
      && remoteToClientBytes == |client.output.accepted|
      && (closeReason.Some? <==> localClosed || remoteClosed)
    }

    constructor (client: TcpStream, remote: TcpStream)
      requires client.Footprint() !! remote.Footprint()
      requires client.input.taken == [] && client.output.accepted == []
      requires remote.input.taken == [] && remote.output.accepted == []
      ensures Valid() && this.client == client && this.remote == remote
      ensures toRemote == toClient == [] && lostUp == lostDown == [] && !localClosed && !remoteClosed
    {
      this.client, this.remote := client, remote;
      toRemote, toClient, lostUp, lostDown := [], [], [], [];
      localClosed, remoteClosed := false, false;
      clientToRemoteBytes, remoteToClientBytes := 0, 0;
      closeReason := None;
    }

    /** Only the first reason is kept. */
    method MarkClosed(reason: string)
      modifies this`closeReason
      ensures closeReason == FirstReason(old(closeReason), Some(reason))
    {
      if closeReason.None? {
        closeReason := Some(reason);
      }
    }

    method DrainToRemote() returns (end: WriteEnd)
      requires client.output != remote.output && clientToRemoteBytes == |remote.output.accepted|
      modifies `toRemote, `clientToRemoteBytes, `lostUp, remote.output
      ensures end == WritingOf(old(Up())).end && Down() == old(Down())
      ensures Up() == AfterWrite(old(Up())).(sinkClosed := remoteClosed)
      ensures clientToRemoteBytes == |remote.output.accepted|
    {
      hide WritingTo, AfterWrite, Noted;
      var rest, written;
      ghost var out, lost;
      rest, written, end, out, lost := WriteOut(toRemote, remote);
      WrittenOut(old(Up()), out, lost, rest);
      toRemote, clientToRemoteBytes := rest, clientToRemoteBytes + written;
      lostUp := Noted(lostUp, |remote.output.accepted|, lost);
    }

    method WriteToRemote()
      requires client.output != remote.output && clientToRemoteBytes == |remote.output.accepted|
      requires closeReason.Some? <==> localClosed || remoteClosed
      modifies `toRemote, `clientToRemoteBytes, `lostUp, `remoteClosed, `closeReason, remote.output
      ensures View() == WriteUp(old(View()))
      ensures closeReason == FirstReason(
                old(closeReason),
                WriteReason(WritingOf(old(View()).up).end, REMOTE_TOOK_NOTHING, REMOTE_WRITE_FAILED))
      ensures clientToRemoteBytes == |remote.output.accepted|
      ensures closeReason.Some? <==> localClosed || remoteClosed
    {
      hide WritingTo, AfterWrite;
      SinkCloses(View());
      var end := DrainToRemote();
      if end != Waiting {
        MarkClosed(if end == WroteNothing then REMOTE_TOOK_NOTHING else REMOTE_WRITE_FAILED);
        remoteClosed := true;
      }
    }

    method DrainToClient() returns (end: WriteEnd)
      requires client.output != remote.output && remoteToClientBytes == |client.output.accepted|
      modifies `toClient, `remoteToClientBytes, `lostDown, client.output
      ensures end == WritingOf(old(Down())).end && Up() == old(Up())
      ensures Down() == AfterWrite(old(Down())).(sinkClosed := localClosed)
      ensures remoteToClientBytes == |client.output.accepted|
    {
      hide WritingTo, AfterWrite, Noted;
      var rest, written;
      ghost var out, lost;
      rest, written, end, out, lost := WriteOut(toClient, client);
      WrittenOut(old(Down()), out, lost, rest);
      toClient, remoteToClientBytes := rest, remoteToClientBytes + written;
      lostDown := Noted(lostDown, |client.output.accepted|, lost);
    }

    method WriteToClient()
      requires client.output != remote.output && remoteToClientBytes == |client.output.accepted|
      requires closeReason.Some? <==> localClosed || remoteClosed
      modifies `toClient, `remoteToClientBytes, `lostDown, `localClosed, `closeReason, client.output
      ensures View() == Mirrored(WriteUp(Mirrored(old(View()))))
      ensures closeReason == FirstReason(
                old(closeReason),
                WriteReason(WritingOf(old(View()).down).end, CLIENT_TOOK_NOTHING, CLIENT_WRITE_FAILED))
      ensures remoteToClientBytes == |client.output.accepted|
      ensures closeReason.Some? <==> localClosed || remoteClosed
    {
      hide WritingTo, AfterWrite;
      SinkCloses(Mirrored(View()));
      var end := DrainToClient();
      if end != Waiting {
        MarkClosed(if end == WroteNothing then CLIENT_TOOK_NOTHING else CLIENT_WRITE_FAILED);
        localClosed := true;
      }
    }

    method ReadFromClient()
      requires client.input != remote.input && client != remote
      requires closeReason.Some? <==> localClosed || remoteClosed
      modifies `toRemote, `localClosed, `closeReason, client.input, remote`writeShut
      ensures View() == ReadUp(old(View()))
      ensures closeReason == FirstReason(
                old(closeReason), EndReason(old(View()).up, CLIENT_CLOSED, CLIENT_READ_FAILED))
      ensures closeReason.Some? <==> localClosed || remoteClosed
    {
      hide Readable, Ending, Unread;
      if !localClosed && toRemote == [] {
        var queue, end := ReadIn(toRemote, client);
        assert [] + queue == queue;
        toRemote := queue;
        if end != NotYet {
          localClosed := true;
          MarkClosed(if end == EndOfStream then CLIENT_CLOSED else CLIENT_READ_FAILED);
          remote.ShutdownWrite();
        }
      }
    }

    method ReadFromRemote()
      requires client.input != remote.input && client != remote
      requires closeReason.Some? <==> localClosed || remoteClosed
      modifies `toClient, `remoteClosed, `closeReason, remote.input, client`writeShut
      ensures View() == Mirrored(ReadUp(Mirrored(old(View()))))
      ensures closeReason == FirstReason(
                old(closeReason), EndReason(old(View()).down, REMOTE_CLOSED, REMOTE_READ_FAILED))
      ensures closeReason.Some? <==> localClosed || remoteClosed
    {
      hide Readable, Ending, Unread;
      if !remoteClosed && toClient == [] {
        var queue, end := ReadIn(toClient, remote);
        assert [] + queue == queue;
        toClient := queue;
        if end != NotYet {
          remoteClosed := true;
          MarkClosed(if end == EndOfStream then REMOTE_CLOSED else REMOTE_READ_FAILED);
          client.ShutdownWrite();
        }
      }
    }

    /** One round of a session. */
    method Pump()
      requires Valid()
      modifies Footprint()
      ensures Valid() && View() == Round(old(View()))
      ensures closeReason == RoundReason(old(View()), old(closeReason))
    {
      hide WriteUp, ReadUp, Up, Down, FlowBalanced;
      RoundKeepsBalance(View());
      WriteToRemote();
      WriteToClient();
      ReadFromClient();
      ReadFromRemote();
    }
  }

  /** Any number of rounds: each direction stays intact exactly until a write of it fails hard. */
  method PumpRounds(session: DirectProxySession, n: nat)
    requires session.Valid()
    modifies session.Footprint()
    ensures session.Valid() && session.View() == Rounds(old(session.View()), n)
    ensures session.lostUp == old(session.lostUp) <==> NoneFails(old(session.View()), n)
    ensures session.lostDown == old(session.lostDown) <==> NoneFails(Mirrored(old(session.View())), n)
  {
    hide Round, NoneFails, DirectProxySession.Valid;
    for i := 0 to n
      invariant session.Valid() && session.View() == Rounds(old(session.View()), i)
    {
      session.Pump();
    }
    LosesIff(old(session.View()), n);
    LosesIff(Mirrored(old(session.View())), n);
    RoundsMirror(old(session.View()), n);
  }

  // ---------- All sessions ----------

  ghost predicate Separate(sessions: seq<DirectProxySession>) {
    forall i, j :: 0 <= i < j < |sessions| ==> sessions[i].Footprint() !! sessions[j].Footprint()
  }

  ghost function AllFootprints(sessions: seq<DirectProxySession>): set<object> {
    set s, o | s in sessions && o in s.Footprint() :: o
  }

  lemma SeparateAt(sessions: seq<DirectProxySession>, i: nat, j: nat)
    requires Separate(sessions) && i < |sessions| && j < |sessions|
    ensures i != j ==> sessions[j].Footprint() !! sessions[i].Footprint()
    ensures sessions[i].Footprint() <= AllFootprints(sessions)
  {
    hide TcpStream.Footprint;
  }

  /** One round of one session leaves the others as they were. */
  method PumpOneOf(sessions: seq<DirectProxySession>, i: nat)
    requires i < |sessions| && Separate(sessions) && forall j :: 0 <= j < |sessions| ==> sessions[j].Valid()
    modifies sessions[i].Footprint()
    ensures sessions[i].View() == Round(old(sessions[i].View()))
    ensures forall j :: 0 <= j < |sessions| && j != i ==> sessions[j].View() == old(sessions[j].View())
    ensures forall j :: 0 <= j < |sessions| ==> sessions[j].Valid()
  {
    hide DirectProxySession.Valid, DirectProxySession.View, AllFootprints, Separate, Round;
    ghost var footprint := sessions[i].Footprint();
    sessions[i].Pump();
    forall j | 0 <= j < |sessions| && j != i
      ensures sessions[j].Valid() && sessions[j].View() == old(sessions[j].View())
    {
      SeparateAt(sessions, i, j);
      assert sessions[j].Footprint() !! footprint && old(sessions[j].Valid());
    }
  }

  /** One round over all sessions: every one has its own round, whatever the others do. */
  method PumpDirectSessions(sessions: seq<DirectProxySession>)
    requires Separate(sessions) && forall j :: 0 <= j < |sessions| ==> sessions[j].Valid()
    modifies AllFootprints(sessions)
    ensures forall j :: 0 <= j < |sessions| ==>
              sessions[j].Valid() && sessions[j].View() == Round(old(sessions[j].View()))
  {
    hide DirectProxySession.Valid, DirectProxySession.View, DirectProxySession.Footprint;
    hide AllFootprints, Separate, Round;
    for i := 0 to |sessions|
      invariant forall j :: 0 <= j < |sessions| ==> sessions[j].Valid()
      invariant forall j :: 0 <= j < i ==> sessions[j].View() == Round(old(sessions[j].View()))
      invariant forall j :: i <= j < |sessions| ==> sessions[j].View() == old(sessions[j].View())
    {
      SeparateAt(sessions, i, i);
      PumpOneOf(sessions, i);
    }
  }

  // ---------- Cleanup ----------

  predicate Finished(s: DirectProxySession)
    reads s
  {
    s.localClosed && s.remoteClosed && s.toClient == [] && s.toRemote == []
  }

  ghost function FinishedOf(sessions: seq<DirectProxySession>): set<DirectProxySession>
    reads sessions
  {
    set s | s in sessions && Finished(s)
  }

  /** Only sessions with which nothing can happen any more are finished, and all of those are. */
  lemma FinishedIffStill(s: DirectProxySession)
    ensures Finished(s) <==>
            forall i, o, i', o' ::
              var q := Flows(With(s.Up(), i, o), With(s.Down(), i', o'));
              Still(q.up, Round(q).up) && Still(q.down, Round(q).down)
  {
    hide Round, Still;
    OverIffStill(s.View());
  }

  /** Survivors keep their order, and exactly the finished sessions go. */
  method CleanupDirectSessions(sessions: seq<DirectProxySession>) returns (kept: seq<DirectProxySession>)
    ensures kept == Without(sessions, FinishedOf(sessions))
  {
    hide Cleaned;
    kept := sessions;
    var index := 0;
    ghost var seen, gone, removed := 0, FinishedOf(sessions), [];
    CleanupStarts(sessions, gone);
    while index < |kept|
      invariant index <= |kept| && Cleaned(sessions, gone, seen, kept, index, removed)
      decreases |kept| - index
    {
      CleanedStep(sessions, gone, seen, kept, index, removed);
      if Finished(kept[index]) {
        removed := removed + [kept[index]];
        kept := kept[..index] + kept[index + 1..];
      } else {
        index := index + 1;
      }
      seen := seen + 1;
    }
    CleanedEnds(sessions, gone, seen, kept, removed);
  }

  /**
   * A session that is removed after any number of rounds delivered a direction byte for byte exactly when no write
   * of that direction had failed hard in any of them, and there is always a reason to report.
   */
  lemma RemovedSessionsDelivered(start: Flows, n: nat, s: DirectProxySession)
    requires FlowBalanced(start.up) && FlowBalanced(start.down) && start.up.lost == start.down.lost == []
    requires s.Valid() && s.View() == Rounds(start, n) && Finished(s)
    ensures s.remote.output.accepted == s.client.input.taken <==> NoneFails(start, n)
    ensures s.client.output.accepted == s.remote.input.taken <==> NoneFails(Mirrored(start), n)
    ensures s.clientToRemoteBytes + DroppedBytes(s.lostUp) == |s.client.input.taken|
    ensures s.remoteToClientBytes + DroppedBytes(s.lostDown) == |s.remote.input.taken|
    ensures s.closeReason.Some?
  {
    hide NoneFails, Balanced, Rounds;
    IntactUnlessFailedHard(start, n);
    IntactUnlessFailedHard(Mirrored(start), n);
    RoundsMirror(start, n);
    IntactIff(s.client.input.taken, s.remote.output.accepted, s.toRemote, s.lostUp);
    IntactIff(s.remote.input.taken, s.client.output.accepted, s.toClient, s.lostDown);
    AppendEmpty(s.remote.output.accepted, s.toRemote);
    AppendEmpty(s.client.output.accepted, s.toClient);
  }
}
