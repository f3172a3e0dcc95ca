/**
 * Cutting a byte stream into HDLC frames. The reference is an automaton fed one byte at a time; the frame
 * finder, which scans a buffer, is proved to find what the automaton emits.
 */
module Deframing {
  import opened Bytes
  import opened Hdlc

  /**
   * Where the automaton stands: whether a flag was seen, the bytes since the last flag, everything received
   * since the flag that closed the last frame (that flag included), and the frames so far.
   */
  datatype Stream = Stream(synced: bool, current: seq<byte>, tail: seq<byte>, frames: seq<seq<byte>>)

  const NOTHING := Stream(false, [], [], [])

  function Receive(st: Stream, b: byte): Stream {
    if b == FLAG && st.synced && st.current != [] then
      Stream(true, [], [FLAG], st.frames + [st.current])
    else if b == FLAG then
      Stream(true, [], st.tail + [b], st.frames)
    else
      Stream(st.synced, if st.synced then st.current + [b] else [], st.tail + [b], st.frames)
  }

  function ReceiveAll(st: Stream, s: seq<byte>): Stream {
    if s == [] then st else Receive(ReceiveAll(st, s[..|s| - 1]), s[|s| - 1])
  }

  function Deframe(s: seq<byte>): Stream {
    ReceiveAll(NOTHING, s)
  }

  lemma {:induction false} ReceiveConcat(st: Stream, a: seq<byte>, b: seq<byte>)
    ensures ReceiveAll(st, a + b) == ReceiveAll(ReceiveAll(st, a), b)
  {
    hide Receive;
    if b == [] {
      assert a + b == a;
    } else {
      assert (a + b)[..|a + b| - 1] == a + b[..|b| - 1];
      ReceiveConcat(st, a, b[..|b| - 1]);
    }
  }

  lemma ReceiveOne(st: Stream, b: byte)
    ensures ReceiveAll(st, [b]) == Receive(st, b)
  {
    hide Receive;
    assert [b][..0] == [];
  }

  /** Frames already emitted do not influence what follows. */
  lemma {:induction false} FramesAccumulate(st: Stream, s: seq<byte>)
    ensures ReceiveAll(st, s) ==
            var rest := ReceiveAll(st.(frames := []), s); rest.(frames := st.frames + rest.frames)
  {
    if s == [] {
      assert st.frames + [] == st.frames;
    } else {
      FramesAccumulate(st, s[..|s| - 1]);
    }
  }

  /** The tail alone determines everything but the frames: what a decoder must keep is the tail. */
  lemma {:induction false} TailReplays(s: seq<byte>)
    ensures Deframe(Deframe(s).tail) == Deframe(s).(frames := [])
  {
    if s != [] {
      var n := |s| - 1;
      var before := Deframe(s[..n]);
      TailReplays(s[..n]);
      if s[n] == FLAG && before.synced && before.current != [] {
        ReceiveOne(NOTHING, FLAG);
      } else {
        ReceiveConcat(NOTHING, before.tail, [s[n]]);
        ReceiveOne(before.(frames := []), s[n]);
      }
    }
  }

  /** Receiving more bytes on top of a kept tail gives exactly the frames that are new. */
  lemma ResumeFromTail(s: seq<byte>, more: seq<byte>)
    ensures Deframe(s + more) ==
            var d := Deframe(Deframe(s).tail + more); d.(frames := Deframe(s).frames + d.frames)
  {
    hide Receive;
    ReceiveConcat(NOTHING, s, more);
    ReceiveConcat(NOTHING, Deframe(s).tail, more);
    TailReplays(s);
    FramesAccumulate(Deframe(s), more);
  }

  lemma ReceiveTail(st: Stream, b: byte)
    ensures || (Receive(st, b).tail == st.tail + [b] && Receive(st, b).frames == st.frames)
            || (Receive(st, b).tail == [b] && Receive(st, b).frames == st.frames + [st.current])
  {
  }

  lemma {:induction false} TailIsSuffix(s: seq<byte>)
    ensures |Deframe(s).tail| <= |s|
    ensures Deframe(s).tail == s[|s| - |Deframe(s).tail|..]
    ensures Deframe(s).frames == [] ==> Deframe(s).tail == s
  {
    hide Receive;
    if s != [] {
      var n := |s| - 1;
      TailIsSuffix(s[..n]);
      ReceiveTail(Deframe(s[..n]), s[n]);
      var k := n - |Deframe(s[..n]).tail|;
      assert s[..n][k..] + [s[n]] == s[k..];
      assert s[n..] == [s[n]];
    }
  }

  // ---------- The same by flags alone ----------

  /** The pieces between the flags, the first and the last of them open at one end. */
  function Cut(s: seq<byte>): (pieces: seq<seq<byte>>)
    ensures pieces != []
  {
    if s == [] then [[]]
    else
      var before, b := Cut(s[..|s| - 1]), s[|s| - 1];
      if b == 0x7e then before + [[]] else before[..|before| - 1] + [before[|before| - 1] + [b]]
  }

  function Glue(pieces: seq<seq<byte>>): seq<byte>
    requires pieces != []
  {
    if |pieces| == 1 then pieces[0] else Glue(pieces[..|pieces| - 1]) + [0x7e] + pieces[|pieces| - 1]
  }

  /** No piece has a flag, and with flags between them they are the stream. */
  lemma {:induction false} CutIsUndone(s: seq<byte>)
    ensures Glue(Cut(s)) == s
    ensures forall p :: p in Cut(s) ==> FLAG !in p
  {
    if s != [] {
      var before, b := Cut(s[..|s| - 1]), s[|s| - 1];
      CutIsUndone(s[..|s| - 1]);
      SnocOf(s);
      SnocOf(before);
      var init, last := before[..|before| - 1], before[|before| - 1];
      if b == 0x7e {
        assert Cut(s)[..|before|] == before;
        AppendEmpty(Glue(before) + [0x7e], Cut(s)[|before|]);
      } else {
        assert Cut(s)[..|init|] == init && Cut(s)[|init|] == last + [b];
        if init != [] {
          AppendAssoc(Glue(init) + [0x7e], last, [b]);
        }
        assert forall p :: p in Cut(s) ==> p in before || p == last + [b];
      }
    }
  }

  function NonEmptyOf(pieces: seq<seq<byte>>): seq<seq<byte>> {
    if pieces == [] then []
    else
      var init, last := NonEmptyOf(pieces[..|pieces| - 1]), pieces[|pieces| - 1];
      if last == [] then init else init + [last]
  }

  /** The frames are the pieces with a flag at either end, but for the empty ones. */
  lemma {:induction false} FramesAreBetweenFlags(s: seq<byte>)
    ensures Deframe(s).synced <==> |Cut(s)| > 1
    ensures Deframe(s).frames == if |Cut(s)| > 1 then NonEmptyOf(Cut(s)[1..|Cut(s)| - 1]) else []
    ensures Deframe(s).current == if |Cut(s)| > 1 then Cut(s)[|Cut(s)| - 1] else []
  {
    if s != [] {
      var n := |s| - 1;
      FramesAreBetweenFlags(s[..n]);
      var before := Cut(s[..n]);
      if s[n] == 0x7e {
        assert Cut(s)[1..|before|] == before[1..];
        if |before| > 1 {
          assert before[1..][..|before| - 2] == before[1..|before| - 1];
        }
      } else if |before| > 1 {
        assert Cut(s)[1..|before| - 1] == before[1..|before| - 1];
      }
    }
  }

  function From(buffer: seq<byte>, start: nat): seq<byte> {
    if start <= |buffer| then buffer[start..] else []
  }

  lemma Extend(buffer: seq<byte>, start: nat, i: nat)
    requires start <= i < |buffer|
    ensures Deframe(buffer[start..i + 1]) == Receive(Deframe(buffer[start..i]), buffer[i])
    ensures buffer[start..i + 1] == buffer[start..i] + [buffer[i]]
  {
    hide Receive;
    assert buffer[start..i + 1][..i - start] == buffer[start..i];
  }

  // The three phases of the scan: before any flag, inside a run of flags, inside a frame that starts at `s`.

  ghost predicate InJunk(buffer: seq<byte>, start: nat, i: nat) {
    start <= i <= |buffer| && Deframe(buffer[start..i]) == Stream(false, [], buffer[start..i], [])
  }

  ghost predicate InFlags(buffer: seq<byte>, start: nat, i: nat) {
    start <= i <= |buffer| && Deframe(buffer[start..i]) == Stream(true, [], buffer[start..i], [])
  }

  ghost predicate InFrame(buffer: seq<byte>, start: nat, s: nat, i: nat) {
    start <= s <= i <= |buffer| && Deframe(buffer[start..i]) == Stream(true, buffer[s..i], buffer[start..i], [])
  }

  lemma ScanJunk(buffer: seq<byte>, start: nat, i: nat)
    requires start <= i < |buffer|
    requires InJunk(buffer, start, i)
    ensures buffer[i] != FLAG ==> InJunk(buffer, start, i + 1)
    ensures buffer[i] == FLAG ==> InFlags(buffer, start, i + 1)
  {
    hide ReceiveAll;
    Extend(buffer, start, i);
  }

  lemma ScanFlags(buffer: seq<byte>, start: nat, i: nat)
    requires start <= i < |buffer|
    requires InFlags(buffer, start, i) && buffer[i] == FLAG
    ensures InFlags(buffer, start, i + 1)
  {
    hide ReceiveAll;
    Extend(buffer, start, i);
  }

  lemma ScanFrame(buffer: seq<byte>, start: nat, s: nat, i: nat)
    requires start <= s <= i < |buffer|
    requires InFrame(buffer, start, s, i) && buffer[i] != FLAG
    ensures InFrame(buffer, start, s, i + 1)
  {
    hide ReceiveAll;
    Extend(buffer, start, i);
    assert buffer[s..i + 1] == buffer[s..i] + [buffer[i]];
  }

  lemma ScanStart(buffer: seq<byte>, start: nat)
    requires start <= |buffer|
    ensures InJunk(buffer, start, start)
  {
    assert buffer[start..start] == [];
  }

  lemma FrameStart(buffer: seq<byte>, start: nat, s: nat)
    requires InFlags(buffer, start, s)
    ensures InFrame(buffer, start, s, s)
  {
    hide ReceiveAll;
    assert buffer[s..s] == [];
  }

  lemma NothingFound(buffer: seq<byte>, start: nat, s: nat)
    requires start <= |buffer| ==> InJunk(buffer, start, |buffer|) || InFrame(buffer, start, s, |buffer|)
    ensures Deframe(From(buffer, start)).frames == []
  {
    if start <= |buffer| {
      assert From(buffer, start) == buffer[start..|buffer|];
    }
  }

  lemma FrameFound(buffer: seq<byte>, start: nat, s: nat, i: nat)
    requires start < s < i < |buffer| && buffer[i] == FLAG
    requires InFrame(buffer, start, s, i)
    ensures Deframe(buffer[start..i + 1]) == Stream(true, [], [FLAG], [buffer[s..i]])
    ensures Deframe(From(buffer, start)).frames != []
  {
    hide ReceiveAll;
    Extend(buffer, start, i);
    FirstFrameStays(buffer, start, i + 1);
  }

  /** `start` is where the frame begins when one is found. */
  method FindFrame(buffer: seq<byte>, start0: nat) returns (result: Result<nat>, start: nat)
    ensures result.Err? ==> result == Err(HdlcNoFrameFound) && start == start0
    ensures result.Err? <==> Deframe(From(buffer, start0)).frames == []
    ensures result.Ok? ==>
              && start0 < start && 0 < result.value && start + result.value < |buffer|
              && buffer[start + result.value] == FLAG
              && Deframe(buffer[start0..start + result.value + 1])
                 == Stream(true, [], [FLAG], [buffer[start..start + result.value]])
  {
    hide *;
    start := start0;
    if start0 > |buffer| {
      NothingFound(buffer, start0, 0);
      return Err(HdlcNoFrameFound), start0;
    }
    ScanStart(buffer, start0);
    var i := start0;
    while i < |buffer| && buffer[i] != FLAG
      invariant start0 <= i <= |buffer| && InJunk(buffer, start0, i)
    {
      ScanJunk(buffer, start0, i);
      i := i + 1;
    }
    if i == |buffer| {
      NothingFound(buffer, start0, 0);
      return Err(HdlcNoFrameFound), start0;
    }
    ScanJunk(buffer, start0, i);
    var s := i + 1;
    while s < |buffer| && buffer[s] == FLAG
      invariant start0 < s <= |buffer| && InFlags(buffer, start0, s)
    {
      ScanFlags(buffer, start0, s);
      s := s + 1;
    }
    FrameStart(buffer, start0, s);
    i := s;
    while i < |buffer| && buffer[i] != FLAG
      invariant s <= i <= |buffer| && InFrame(buffer, start0, s, i)
      invariant i == s && s < |buffer| ==> buffer[s] != FLAG
    {
      ScanFrame(buffer, start0, s, i);
      i := i + 1;
    }
    if i == |buffer| {
      NothingFound(buffer, start0, s);
      return Err(HdlcNoFrameFound), start0;
    }
    FrameFound(buffer, start0, s, i);
    return Ok(i - s), s;
  }

  lemma FirstFrameStays(buffer: seq<byte>, start: nat, i: nat)
    requires start <= i <= |buffer| && Deframe(buffer[start..i]).frames != []
    ensures Deframe(buffer[start..]).frames != []
  {
    hide Receive;
    assert buffer[start..] == buffer[start..i] + buffer[i..];
    ReceiveConcat(NOTHING, buffer[start..i], buffer[i..]);
    FramesAccumulate(Deframe(buffer[start..i]), buffer[i..]);
  }
}
