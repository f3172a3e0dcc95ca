/**
 * What the sessions of the SOCKS proxy have in common: byte queues that are written to sockets that take only part
 * of what they are offered, what becomes of dropped bytes, and removing elements from a list while walking it.
 */
module PumpQueues {
  import opened Bytes
  import opened Io

  const IO_BUFFER_SIZE: nat := 16 * 1024

  // ---------- The two byte-queue helpers ----------

  method DrainChunk(queue: seq<byte>, maxLen: nat) returns (chunk: seq<byte>, rest: seq<byte>)
    ensures chunk + rest == queue && |chunk| == if |queue| < maxLen then |queue| else maxLen
    ensures queue != [] && maxLen > 0 ==> chunk != []
  {
    var len := if |queue| < maxLen then |queue| else maxLen;
    chunk, rest := queue[..len], queue[len..];
  }

  method PushFrontBytes(queue: seq<byte>, bytes: seq<byte>) returns (result: seq<byte>)
    ensures result == bytes + queue
  {
    result := queue;
    for i := |bytes| downto 0
      invariant result == bytes[i..] + queue
    {
      result := [bytes[i]] + result;
      assert bytes[i..] == [bytes[i]] + bytes[i + 1..];
    }
  }

  // ---------- The loops of a pump ----------

  lemma ChunkTaken<T>(accepted: seq<T>, chunk: seq<T>, n: nat, others: seq<T>)
    requires n <= |chunk|
    ensures accepted + chunk[..n] + (chunk[n..] + others) == accepted + (chunk + others)
    ensures n == |chunk| ==> chunk[n..] + others == others
  {
  }

  datatype WriteEnd = Waiting | WroteNothing | FailedHard

  /** What writing out a queue does: bytes taken, then bytes dropped, how it ends, and the script that is left. */
  datatype Written = Written(taken: nat, dropped: nat, end: WriteEnd, script: seq<WriteEvent>)

  function ChunkOf(n: nat): nat {
    if n < IO_BUFFER_SIZE then n else IO_BUFFER_SIZE
  }

  /**
   * Writing out n bytes in chunks. A chunk taken in part or not at all for now ends it; so does a write that takes
   * nothing, which loses nothing; a hard failure, and only that, drops the chunk that was being written.
   */
  function Writing(script: seq<WriteEvent>, n: nat): (w: Written)
    ensures w.taken + w.dropped <= n && w.dropped <= IO_BUFFER_SIZE && (w.end == FailedHard <==> w.dropped > 0)
    decreases |script|
  {
    if n == 0 then Written(0, 0, Waiting, script)
    else
      match Answer(script, ChunkOf(n))
      case WriteFailed(kind) =>
        if kind == WouldBlock then Written(0, 0, Waiting, Later(script))
        else Written(0, ChunkOf(n), FailedHard, Later(script))
      case Accept(k) =>
        if k == 0 then Written(0, 0, WroteNothing, Later(script))
        else if k < ChunkOf(n) then Written(k, 0, Waiting, Later(script))
        else Plus(k, Writing(Later(script), n - ChunkOf(n)))
  }

  /** The same for a socket, which fails hard once it was shut down for writing. */
  function WritingTo(shut: bool, script: seq<WriteEvent>, n: nat): (w: Written)
    ensures w.taken + w.dropped <= n && w.dropped <= IO_BUFFER_SIZE && (w.end == FailedHard <==> w.dropped > 0)
  {
    if shut && n > 0 then Written(0, ChunkOf(n), FailedHard, script) else Writing(script, n)
  }

  /** The same after n bytes were taken before. */
  function Plus(n: nat, w: Written): Written {
    w.(taken := n + w.taken)
  }

  /** Some bytes are taken exactly when the next write takes some. */
  lemma TakesIffReady(shut: bool, script: seq<WriteEvent>, n: nat)
    ensures WritingTo(shut, script, n).taken > 0 <==> !shut && n > 0 && Ready(script)
  {
  }

  predicate Hard(event: WriteEvent) {
    event.WriteFailed? && event.kind != WouldBlock
  }

  /** After k chunks that the stream takes whole, it answers the next one with a hard failure. */
  ghost predicate FailsAt(script: seq<WriteEvent>, n: nat, k: nat) {
    && k < |script| && k * IO_BUFFER_SIZE < n && Hard(script[k])
    && forall j :: 0 <= j < k ==> script[j].Accept? && script[j].limit >= IO_BUFFER_SIZE
  }

  lemma FailsAtNext(script: seq<WriteEvent>, n: nat, k: nat)
    requires script != [] && script[0].Accept? && script[0].limit >= IO_BUFFER_SIZE && n > IO_BUFFER_SIZE
    ensures FailsAt(script, n, k + 1) <==> FailsAt(script[1..], n - IO_BUFFER_SIZE, k)
  {
    if FailsAt(script[1..], n - IO_BUFFER_SIZE, k) {
      assert forall j :: 0 < j <= k ==> script[j] == script[1..][j - 1];
    }
  }

  lemma FailsAtFirst(script: seq<WriteEvent>, n: nat, k: nat)
    ensures FailsAt(script, n, 0) <==> n > 0 && script != [] && Hard(script[0])
    ensures FailsAt(script, n, k) ==>
              && n > 0 && script != []
              && (k == 0 || (script[0].Accept? && script[0].limit >= IO_BUFFER_SIZE && n > IO_BUFFER_SIZE))
  {
  }

  lemma WritingFirst(script: seq<WriteEvent>, n: nat)
    requires n > 0 && script != []
    ensures
      var w := Writing(script, n);
      if script[0].Accept? && script[0].limit >= IO_BUFFER_SIZE && n > IO_BUFFER_SIZE then
        w == Plus(IO_BUFFER_SIZE, Writing(script[1..], n - IO_BUFFER_SIZE))
      else (w.end == FailedHard <==> Hard(script[0])) && (Hard(script[0]) ==> w.taken == 0 && w.dropped == ChunkOf(n))
  {
    if script[0].Accept? && n <= script[0].limit && n <= IO_BUFFER_SIZE {
      assert Writing(script, n) == Plus(n, Writing(script[1..], 0));
    }
  }

  lemma {:induction false} FailureDrops(script: seq<WriteEvent>, n: nat, k: nat)
    requires FailsAt(script, n, k)
    ensures
      var w := Writing(script, n);
      w.end == FailedHard && w.taken == k * IO_BUFFER_SIZE && w.dropped == ChunkOf(n - k * IO_BUFFER_SIZE)
  {
    hide FailsAt, Writing, ChunkOf;
    FailsAtFirst(script, n, k);
    WritingFirst(script, n);
    if k > 0 {
      FailsAtNext(script, n, k - 1);
      FailureDrops(script[1..], n - IO_BUFFER_SIZE, k - 1);
      assert k * IO_BUFFER_SIZE == IO_BUFFER_SIZE + (k - 1) * IO_BUFFER_SIZE;
    }
  }

  lemma {:induction false} DropsAfterFailure(script: seq<WriteEvent>, n: nat) returns (k: nat)
    requires Writing(script, n).end == FailedHard
    ensures FailsAt(script, n, k)
    decreases |script|
  {
    assert n > 0 && script != [];
    hide FailsAt, Writing;
    FailsAtFirst(script, n, 0);
    WritingFirst(script, n);
    k := 0;
    if !Hard(script[0]) {
      k := DropsAfterFailure(script[1..], n - IO_BUFFER_SIZE);
      FailsAtNext(script, n, k);
      k := k + 1;
    }
  }

  /** Bytes are dropped exactly when that happens for some k, and then they are the one chunk that was refused. */
  lemma DropsIff(script: seq<WriteEvent>, n: nat)
    ensures Writing(script, n).end == FailedHard <==> exists k: nat :: FailsAt(script, n, k)
    ensures forall k: nat | FailsAt(script, n, k) ::
              && Writing(script, n).taken == k * IO_BUFFER_SIZE
              && Writing(script, n).dropped == ChunkOf(n - k * IO_BUFFER_SIZE)
  {
    hide FailsAt, Writing;
    forall k: nat | FailsAt(script, n, k)
      ensures
        && Writing(script, n).end == FailedHard && Writing(script, n).taken == k * IO_BUFFER_SIZE
        && Writing(script, n).dropped == ChunkOf(n - k * IO_BUFFER_SIZE)
    {
      FailureDrops(script, n, k);
    }
    if Writing(script, n).end == FailedHard {
      var k := DropsAfterFailure(script, n);
    }
  }

  /** The first k writes are offered to the stream and taken whole. */
  ghost predicate TakesWhole(script: seq<WriteEvent>, n: nat, k: nat) {
    && k <= |script| && (k > 0 ==> (k - 1) * IO_BUFFER_SIZE < n)
    && forall j :: 0 <= j < k ==>
         j * IO_BUFFER_SIZE < n && script[j].Accept? && script[j].limit >= ChunkOf(n - j * IO_BUFFER_SIZE)
  }

  function Smaller(m: nat, n: nat): nat {
    if m < n then m else n
  }

  lemma WholeFirst(script: seq<WriteEvent>, n: nat)
    requires n > 0 && script != [] && script[0].Accept? && script[0].limit >= ChunkOf(n)
    ensures Writing(script, n) == Plus(ChunkOf(n), Writing(script[1..], n - ChunkOf(n)))
  {
  }

  lemma WholeNext(script: seq<WriteEvent>, n: nat, k: nat)
    requires n > 0 && script != [] && script[0].Accept? && script[0].limit >= ChunkOf(n)
    requires TakesWhole(script[1..], n - ChunkOf(n), k)
    ensures TakesWhole(script, n, k + 1)
    ensures Smaller(n, (k + 1) * IO_BUFFER_SIZE) == ChunkOf(n) + Smaller(n - ChunkOf(n), k * IO_BUFFER_SIZE)
    ensures script[k + 1..] == script[1..][k..]
  {
    forall j | 0 < j < k + 1
      ensures j * IO_BUFFER_SIZE < n && script[j].Accept? && script[j].limit >= ChunkOf(n - j * IO_BUFFER_SIZE)
    {
      assert script[j] == script[1..][j - 1] && (j - 1) * IO_BUFFER_SIZE < n - ChunkOf(n);
    }
  }

  /** All is written, or the first write that is not taken whole ends it, each kind of answer in its own way. */
  lemma {:induction false} WritingOutcome(script: seq<WriteEvent>, n: nat) returns (k: nat)
    ensures TakesWhole(script, n, k)
    ensures
      var done := Smaller(n, k * IO_BUFFER_SIZE);
      var chunk := ChunkOf(n - done);
      if done == n then Writing(script, n) == Written(n, 0, Waiting, script[k..])
      else
        match Answer(script[k..], chunk)
        case WriteFailed(WouldBlock) => Writing(script, n) == Written(done, 0, Waiting, Later(script[k..]))
        case WriteFailed(_) => Writing(script, n) == Written(done, chunk, FailedHard, Later(script[k..]))
        case Accept(0) => Writing(script, n) == Written(done, 0, WroteNothing, Later(script[k..]))
        case Accept(m) => m < chunk && Writing(script, n) == Written(done + m, 0, Waiting, Later(script[k..]))
    decreases |script|
  {
    hide TakesWhole, Writing;
    if n > 0 && script != [] && script[0].Accept? && script[0].limit >= ChunkOf(n) {
      WholeFirst(script, n);
      k := WritingOutcome(script[1..], n - ChunkOf(n));
      WholeNext(script, n, k);
      k := k + 1;
    } else {
      k := 0;
      NoneWhole(script, n);
    }
  }

  lemma NoneWhole(script: seq<WriteEvent>, n: nat)
    ensures TakesWhole(script, n, 0) && script[0..] == script
    ensures n == 0 ==> Writing(script, n) == Written(0, 0, Waiting, script)
    ensures n > 0 && !(script != [] && script[0].Accept? && script[0].limit >= ChunkOf(n)) ==>
              match Answer(script, ChunkOf(n))
              case WriteFailed(WouldBlock) => Writing(script, n) == Written(0, 0, Waiting, Later(script))
              case WriteFailed(_) => Writing(script, n) == Written(0, ChunkOf(n), FailedHard, Later(script))
              case Accept(0) => Writing(script, n) == Written(0, 0, WroteNothing, Later(script))
              case Accept(m) => m < ChunkOf(n) && Writing(script, n) == Written(m, 0, Waiting, Later(script))
  {
  }

  /** What one write decides of the whole. */
  lemma WritingStep(script: seq<WriteEvent>, n: nat)
    requires n > 0
    ensures
      Writing(script, n) ==
      match Answer(script, ChunkOf(n))
      case WriteFailed(kind) =>
        if kind == WouldBlock then Written(0, 0, Waiting, Later(script))
        else Written(0, ChunkOf(n), FailedHard, Later(script))
      case Accept(k) =>
        if k == 0 then Written(0, 0, WroteNothing, Later(script))
        else if k < ChunkOf(n) then Written(k, 0, Waiting, Later(script))
        else Plus(k, Writing(Later(script), n - ChunkOf(n)))
  {
  }

  /** A queue cut into what was taken, what was dropped and what is left. */
  ghost predicate Cut<T>(queue: seq<T>, w: Written, out: seq<T>, lost: seq<T>, rest: seq<T>) {
    queue == out + lost + rest && |out| == w.taken && |lost| == w.dropped
  }

  lemma CutOf<T>(queue: seq<T>, w: Written, out: seq<T>, lost: seq<T>, rest: seq<T>)
    requires Cut(queue, w, out, lost, rest) && w.taken + w.dropped <= |queue|
    ensures out == queue[..w.taken] && lost == queue[w.taken..w.taken + w.dropped]
    ensures rest == queue[w.taken + w.dropped..]
  {
  }

  /** The body of the writing loop: one chunk; `goOn` if all of it was taken. */
  method WriteChunk(queue: seq<byte>, socket: TcpStream)
    returns (rest: seq<byte>, goOn: bool, ghost out: seq<byte>, end: WriteEnd, n: nat, ghost lost: seq<byte>)
    requires queue != []
    modifies socket.output
    ensures socket.output.accepted == old(socket.output.accepted) + out && n == |out|
    ensures queue == out + lost + rest
    ensures !goOn ==>
              var w := WritingTo(socket.writeShut, old(socket.output.script), |queue|);
              Cut(queue, w, out, lost, rest) && end == w.end && socket.output.script == w.script
    ensures goOn ==>
              && lost == [] && n > 0 && end == Waiting && !socket.writeShut
              && WritingTo(false, old(socket.output.script), |queue|)
                 == Plus(n, WritingTo(false, socket.output.script, |rest|))
  {
    hide Answer, Writing;
    n, goOn, end, out, lost := 0, false, Waiting, [], [];
    ghost var accepted := socket.output.accepted;
    AppendEmpty(accepted, out);
    var chunk, others := DrainChunk(queue, IO_BUFFER_SIZE);
    WritingStep(socket.output.script, |queue|);
    var event := socket.Write(chunk);
    match event
    case WriteFailed(kind) =>
      if kind == WouldBlock {
        rest := PushFrontBytes(others, chunk);
      } else {
        rest, end, lost := others, FailedHard, chunk;
      }
      assert queue == [] + lost + rest;
    case Accept(taken) =>
      n, out := taken, chunk[..taken];
      assert chunk == out + chunk[taken..] && out + lost == out;
      AppendAssoc(out, chunk[taken..], others);
      if taken == 0 {
        rest := PushFrontBytes(others, chunk);
        end := WroteNothing;
      } else if taken < |chunk| {
        rest := PushFrontBytes(others, chunk[taken..]);
      } else {
        rest, goOn := others, true;
      }
  }

  /** Write out a queue until it is empty or the socket stops taking bytes. */
  method WriteOut(queue: seq<byte>, socket: TcpStream)
    returns (rest: seq<byte>, written: nat, end: WriteEnd, ghost out: seq<byte>, ghost lost: seq<byte>)
    modifies socket.output
    ensures
      var w := WritingTo(socket.writeShut, old(socket.output.script), |queue|);
      && Cut(queue, w, out, lost, rest) && socket.output.accepted == old(socket.output.accepted) + out
      && written == w.taken && end == w.end && socket.output.script == w.script
  {
    hide Writing, WritingTo;
    rest, written, end, out, lost := queue, 0, Waiting, [], [];
    ghost var start, all := socket.output.accepted, WritingTo(socket.writeShut, socket.output.script, |queue|);
    AppendEmpty(start, out);
    assert [] + queue == queue;
    while rest != []
      invariant queue == out + rest && lost == [] && end == Waiting
      invariant socket.output.accepted == start + out && written == |out|
      invariant all == Plus(written, WritingTo(socket.writeShut, socket.output.script, |rest|))
      decreases |rest|
    {
      ghost var before, more := out, [];
      var goOn, n;
      ghost var was := rest;
      rest, goOn, more, end, n, lost := WriteChunk(rest, socket);
      out, written := before + more, written + n;
      AppendAssoc(start, before, more);
      PartsAppend(before, more, lost, rest, was);
      if !goOn {
        return;
      }
      AppendEmpty(out, lost);
    }
    NothingToWrite(socket.writeShut, socket.output.script);
    AppendEmpty(out, lost);
  }

  lemma PartsAppend<T>(before: seq<T>, more: seq<T>, lost: seq<T>, rest: seq<T>, whole: seq<T>)
    requires whole == more + lost + rest
    ensures before + whole == before + more + lost + rest
  {
  }

  lemma NothingToWrite(shut: bool, script: seq<WriteEvent>)
    ensures WritingTo(shut, script, 0) == Written(0, 0, Waiting, script)
  {
  }

  /** Read until the socket has nothing more to give. */
  method ReadIn(queue: seq<byte>, socket: TcpStream) returns (result: seq<byte>, end: ReadEnd)
    modifies socket.input
    ensures
      var more := Readable(old(socket.input.script));
      result == queue + more && socket.input.taken == old(socket.input.taken) + more
    ensures end == Ending(old(socket.input.script)) && socket.input.script == Unread(old(socket.input.script))
  {
    hide Readable, Ending, Unread;
    result := queue;
    ghost var start, all := socket.input.taken, Readable(socket.input.script);
    ghost var more := [];
    while true
      invariant result == queue + more && socket.input.taken == start + more
      invariant more + Readable(socket.input.script) == all
      invariant Ending(socket.input.script) == Ending(old(socket.input.script))
      invariant Unread(socket.input.script) == Unread(old(socket.input.script))
      decreases ByteSource.Weight(socket.input.script)
    {
      var event := socket.input.Read(IO_BUFFER_SIZE);
      assert more + [] == more && start + more + [] == start + more;
      match event
      case ReadFailed(kind) =>
        end := if kind == WouldBlock then NotYet else ReadError;
        return;
      case Chunk(bytes) =>
        if bytes == [] {
          end := EndOfStream;
          return;
        }
        AppendAssoc(queue, more, bytes);
        AppendAssoc(start, more, bytes);
        AppendAssoc(more, bytes, Readable(socket.input.script));
        result, more := result + bytes, more + bytes;
    }
  }

  // ---------- Why a session was closed ----------

  /** Only the first reason is kept. */
  function FirstReason(reason: Option<string>, next: Option<string>): Option<string> {
    if reason.Some? then reason else next
  }

  function WriteReason(end: WriteEnd, tookNothing: string, failed: string): Option<string> {
    match end
    case Waiting => None
    case WroteNothing => Some(tookNothing)
    case FailedHard => Some(failed)
  }

  function ReadReason(end: ReadEnd, closed: string, failed: string): Option<string> {
    match end
    case NotYet => None
    case EndOfStream => Some(closed)
    case ReadError => Some(failed)
  }

  // ---------- What a direction keeps ----------

  /** A chunk that was dropped, and how many bytes had been accepted when it was. */
  datatype Drop<T> = Drop(at: nat, bytes: seq<T>)

  predicate Placed<T>(n: nat, drops: seq<Drop<T>>) {
    drops == [] ||
    var last := drops[|drops| - 1];
    last.bytes != [] && last.at <= n && Placed(last.at, drops[..|drops| - 1])
  }

  /** The accepted bytes with every dropped chunk put back in its place. */
  function Restored<T>(accepted: seq<T>, drops: seq<Drop<T>>): seq<T>
    requires Placed(|accepted|, drops)
    decreases |drops|
  {
    if drops == [] then accepted
    else
      var last := drops[|drops| - 1];
      Restored(accepted[..last.at], drops[..|drops| - 1]) + last.bytes + accepted[last.at..]
  }

  function DroppedBytes<T>(drops: seq<Drop<T>>): nat {
    if drops == [] then 0 else DroppedBytes(drops[..|drops| - 1]) + |drops[|drops| - 1].bytes|
  }

  function Noted<T>(drops: seq<Drop<T>>, at: nat, bytes: seq<T>): (r: seq<Drop<T>>)
    ensures drops <= r && (bytes == [] <==> r == drops)
  {
    if bytes == [] then drops else drops + [Drop(at, bytes)]
  }

  lemma RestoredMore<T>(accepted: seq<T>, more: seq<T>, drops: seq<Drop<T>>)
    requires Placed(|accepted|, drops)
    ensures Placed(|accepted + more|, drops) && Restored(accepted + more, drops) == Restored(accepted, drops) + more
  {
    if drops != [] {
      var at := drops[|drops| - 1].at;
      assert (accepted + more)[..at] == accepted[..at] && (accepted + more)[at..] == accepted[at..] + more;
    }
  }

  lemma RestoredNoted<T>(accepted: seq<T>, drops: seq<Drop<T>>, bytes: seq<T>)
    requires Placed(|accepted|, drops)
    ensures Placed(|accepted|, Noted(drops, |accepted|, bytes))
    ensures Restored(accepted, Noted(drops, |accepted|, bytes)) == Restored(accepted, drops) + bytes
  {
    if bytes != [] {
      var r := Noted(drops, |accepted|, bytes);
      assert r[..|r| - 1] == drops && accepted[..|accepted|] == accepted && accepted[|accepted|..] == [];
    }
  }

  lemma {:induction false} RestoredSize<T>(accepted: seq<T>, drops: seq<Drop<T>>)
    requires Placed(|accepted|, drops)
    ensures |Restored(accepted, drops)| == |accepted| + DroppedBytes(drops)
    ensures DroppedBytes(drops) == 0 <==> drops == []
    decreases |drops|
  {
    if drops != [] {
      RestoredSize(accepted[..drops[|drops| - 1].at], drops[..|drops| - 1]);
    }
  }

  /** One direction: what was accepted, with the dropped chunks put back, and then the queue is what was taken. */
  ghost predicate Balanced(taken: seq<byte>, accepted: seq<byte>, queue: seq<byte>, drops: seq<Drop<byte>>) {
    Placed(|accepted|, drops) && Restored(accepted, drops) + queue == taken
  }

  /** The bytes arrive as they were sent, as far as they went, exactly when none was dropped. */
  lemma IntactIff(taken: seq<byte>, accepted: seq<byte>, queue: seq<byte>, drops: seq<Drop<byte>>)
    requires Balanced(taken, accepted, queue, drops)
    ensures accepted + queue == taken <==> drops == []
    ensures |accepted| + DroppedBytes(drops) + |queue| == |taken|
  {
    hide Placed;
    RestoredSize(accepted, drops);
    assert |Restored(accepted, drops) + queue| == |taken|;
    if accepted + queue == taken {
      assert |accepted + queue| == |taken|;
    }
  }

  lemma SplitOfEqual<T>(before: seq<T>, queue: seq<T>, after: seq<T>, lost: seq<T>, rest: seq<T>)
    requires after + lost + rest == before + queue && |after| >= |before|
    ensures after == before + after[|before|..] && after[|before|..] + (lost + rest) == queue
  {
    AppendAssoc(after, lost, rest);
    var whole := after + (lost + rest);
    assert whole[..|before|] == before && whole[|before|..] == queue;
    assert whole[..|before|] == after[..|before|];
    assert whole[|before|..] == after[|before|..] + (lost + rest);
  }

  lemma BalanceAfterWrite(taken: seq<byte>, accepted: seq<byte>, queue: seq<byte>, drops: seq<Drop<byte>>,
                          after: seq<byte>, rest: seq<byte>, lost: seq<byte>)
    requires Balanced(taken, accepted, queue, drops)
    requires after + lost + rest == accepted + queue && |after| >= |accepted|
    ensures Balanced(taken, after, rest, Noted(drops, |after|, lost))
  {
    hide Placed, Restored, Noted;
    var out := after[|accepted|..];
    SplitOfEqual(accepted, queue, after, lost, rest);
    RestoredMore(accepted, out, drops);
    RestoredNoted(after, drops, lost);
    AppendAssoc(Restored(accepted, drops), out, lost + rest);
    AppendAssoc(Restored(accepted, drops) + out, lost, rest);
  }

  lemma BalanceAfterRead(taken: seq<byte>, accepted: seq<byte>, queue: seq<byte>, drops: seq<Drop<byte>>,
                         more: seq<byte>)
    requires Balanced(taken, accepted, queue, drops)
    ensures Balanced(taken + more, accepted, queue + more, drops)
  {
    hide Placed, Restored;
    AppendAssoc(Restored(accepted, drops), queue, more);
  }

  // ---------- Removing elements from a list while walking it ----------

  /** The elements that are not in the set, in their order. */
  ghost function Without<T>(s: seq<T>, gone: set<T>): seq<T> {
    if s == [] then []
    else
      var before, last := Without(s[..|s| - 1], gone), s[|s| - 1];
      if last in gone then before else before + [last]
  }

  /** The elements that are in the set, in their order. */
  ghost function Within<T>(s: seq<T>, gone: set<T>): seq<T> {
    if s == [] then []
    else
      var before, last := Within(s[..|s| - 1], gone), s[|s| - 1];
      if last in gone then before + [last] else before
  }

  lemma {:induction false} WithoutIff<T>(s: seq<T>, gone: set<T>, x: T)
    ensures x in Without(s, gone) <==> x in s && x !in gone
    ensures x in Within(s, gone) <==> x in s && x in gone
    ensures |Without(s, gone)| + |Within(s, gone)| == |s|
  {
    if s != [] {
      SnocOf(s);
      WithoutIff(s[..|s| - 1], gone, x);
    }
  }

  /** The state of a removing loop after the first elements: what is kept of them, then those not yet seen. */
  ghost predicate Cleaned<T>(s: seq<T>, gone: set<T>, seen: nat, kept: seq<T>, index: nat, removed: seq<T>) {
    && seen <= |s| && index <= |kept| && kept[index..] == s[seen..]
    && kept[..index] == Without(s[..seen], gone) && removed == Within(s[..seen], gone)
  }

  lemma CleanupStarts<T>(s: seq<T>, gone: set<T>)
    ensures Cleaned(s, gone, 0, s, 0, [])
  {
  }

  lemma CleanedStep<T>(s: seq<T>, gone: set<T>, seen: nat, kept: seq<T>, index: nat, removed: seq<T>)
    requires Cleaned(s, gone, seen, kept, index, removed) && index < |kept|
    ensures seen < |s| && kept[index] == s[seen]
    ensures kept[index] in gone ==>
              Cleaned(s, gone, seen + 1, kept[..index] + kept[index + 1..], index, removed + [kept[index]])
    ensures kept[index] !in gone ==> Cleaned(s, gone, seen + 1, kept, index + 1, removed)
  {
    assert |kept[index..]| == |s[seen..]|;
    assert kept[index] == kept[index..][0] == s[seen..][0] == s[seen];
    assert s[..seen + 1][..seen] == s[..seen];
    var others := kept[index..][1..];
    assert others == s[seen..][1..] == s[seen + 1..];
    assert kept[..index + 1] == kept[..index] + [kept[index]] && kept[index + 1..] == others;
    var next := kept[..index] + kept[index + 1..];
    assert next[..index] == kept[..index] && next[index..] == others;
  }

  lemma CleanedEnds<T>(s: seq<T>, gone: set<T>, seen: nat, kept: seq<T>, removed: seq<T>)
    requires Cleaned(s, gone, seen, kept, |kept|, removed)
    ensures seen == |s| && kept == Without(s, gone) && removed == Within(s, gone)
  {
    assert |s[seen..]| == 0 && s[..|s|] == s && kept[..|kept|] == kept;
  }
}
