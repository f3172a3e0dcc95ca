/** The HDLC-like framing codec: byte stuffing, the frame layout, and the frame finder. */
module Hdlc {
  import opened Bytes
  import Fcs

  const FLAG: byte := 0x7e
  const ESCAPE: byte := 0x7d
  const HEADER: seq<byte> := [0xff, 0x7d, 0x03 ^ 0x20]

  predicate InSendingAccm(b: byte) {
    b < 0x20 || b & 0x7f == 0x7d || b & 0x7f == 0x7e
  }

  predicate InReceivingAccm(b: byte) {
    b < 0x20
  }

  // ---------- Sending ----------

  function Escaped(b: byte): seq<byte> {
    if InSendingAccm(b) then [ESCAPE, b ^ 0x20] else [b]
  }

  function Stuff(s: seq<byte>): seq<byte> {
    if s == [] then [] else Stuff(s[..|s| - 1]) + Escaped(s[|s| - 1])
  }

  /** The checksum covers the address and control bytes when they are present. */
  function Covered(hasAddressControl: bool, packet: seq<byte>): seq<byte> {
    (if hasAddressControl then [0xff, 0x03] else []) + packet
  }

  function TrailerFor(hasAddressControl: bool, packet: seq<byte>): (t: seq<byte>)
    ensures |t| == 2
  {
    Fcs.Trailer(0xffff, Covered(hasAddressControl, packet))
  }

  /** What stands between the opening and the closing flag. */
  function FrameBody(packet: seq<byte>): seq<byte> {
    HEADER + Stuff(packet + TrailerFor(true, packet))
  }

  function Opening(needFlagSequence: bool): seq<byte> {
    if needFlagSequence then [FLAG] else []
  }

  function EncodeFrame(needFlagSequence: bool, packet: seq<byte>): seq<byte> {
    Opening(needFlagSequence) + FrameBody(packet) + [FLAG]
  }

  method PushEscaped(out: seq<byte>, b: byte) returns (r: seq<byte>)
    ensures r == out + Escaped(b)
  {
    if InSendingAccm(b) {
      r := out + [ESCAPE] + [b ^ 0x20];
    } else {
      r := out + [b];
    }
  }

  lemma TrailerFromStart(sum: bv16, packet: seq<byte>)
    requires sum == Fcs.Checksum(Fcs.ADDRESS_CONTROL_CHECKSUM, packet)
    ensures Fcs.TrailerOf(sum) == TrailerFor(true, packet)
  {
    hide Fcs.Checksum, Fcs.TrailerOf;
    Fcs.AddressControlPrefix(packet);
  }

  lemma StuffSnoc(s: seq<byte>, b: byte)
    ensures Stuff(s + [b]) == Stuff(s) + Escaped(b)
  {
    assert (s + [b])[..|s|] == s;
  }

  lemma StuffTwo(s: seq<byte>, b: byte, c: byte)
    ensures Stuff(s + [b, c]) == Stuff(s) + Escaped(b) + Escaped(c)
  {
    hide Escaped;
    StuffSnoc(s, b);
    StuffSnoc(s + [b], c);
    assert s + [b] + [c] == s + [b, c];
  }

  class HdlcCodec {
    var needFlagSequence: bool

    constructor ()
      ensures needFlagSequence
    {
      needFlagSequence := true;
    }

    /** The first frame opens with a flag; every later frame shares the closing flag of the one before it. */
    method Encode(packet: seq<byte>) returns (frame: seq<byte>)
      modifies this
      ensures frame == EncodeFrame(old(needFlagSequence), packet)
      ensures !needFlagSequence
    {
      hide Fcs.Checksum, Fcs.Complement, Fcs.LowByte, Fcs.HighByte, Escaped, EncodeFrame;
      ghost var need := needFlagSequence;
      frame := [];
      if needFlagSequence {
        frame := frame + [FLAG];
      }
      frame := frame + HEADER;
      ghost var start := frame;
      assert start == Opening(need) + HEADER;
      hide Opening;

      var checksum := Fcs.FrameChecksum16bit(Fcs.ADDRESS_CONTROL_CHECKSUM, packet);
      for i := 0 to |packet|
        invariant frame == start + Stuff(packet[..i])
      {
        frame := PushEscaped(frame, packet[i]);
        StuffSnoc(packet[..i], packet[i]);
        assert packet[..i] + [packet[i]] == packet[..i + 1];
      }
      assert packet[..|packet|] == packet;

      ghost var sum := checksum;
      checksum := Fcs.Complement(checksum);
      frame := PushEscaped(frame, Fcs.LowByte(checksum));
      frame := PushEscaped(frame, Fcs.HighByte(checksum));
      frame := frame + [FLAG];
      ghost var c := checksum;
      assert frame
          == Opening(need) + HEADER + Stuff(packet) + Escaped(Fcs.LowByte(c)) + Escaped(Fcs.HighByte(c)) + [FLAG];
      FrameAssembles(need, packet, sum, Stuff(packet));
      needFlagSequence := false;
    }
  }

  lemma AppendRegroup<T>(o: seq<T>, h: seq<T>, s: seq<T>, e: seq<T>, f: seq<T>, z: seq<T>)
    ensures o + h + s + e + f + z == o + (h + (s + e + f)) + z
  {
  }

  lemma FrameAssembles(need: bool, packet: seq<byte>, sum: bv16, stuffed: seq<byte>)
    requires sum == Fcs.Checksum(Fcs.ADDRESS_CONTROL_CHECKSUM, packet) && stuffed == Stuff(packet)
    ensures
      var c := Fcs.Complement(sum);
      Opening(need) + HEADER + stuffed + Escaped(Fcs.LowByte(c)) + Escaped(Fcs.HighByte(c)) + [FLAG]
      == EncodeFrame(need, packet)
  {
    hide Fcs.Checksum, Fcs.Complement, Fcs.LowByte, Fcs.HighByte, Escaped, Stuff, Opening, TrailerFor;
    var c := Fcs.Complement(sum);
    StuffTwo(packet, Fcs.LowByte(c), Fcs.HighByte(c));
    TrailerFromStart(sum, packet);
    AppendRegroup(Opening(need), HEADER, stuffed, Escaped(Fcs.LowByte(c)), Escaped(Fcs.HighByte(c)), [FLAG]);
  }

  /** The size the sender reserves is a true upper bound. */
  lemma {:induction false} StuffBound(s: seq<byte>)
    ensures |Stuff(s)| <= 2 * |s|
  {
    hide InSendingAccm;
    if s != [] {
      StuffBound(s[..|s| - 1]);
    }
  }

  lemma FrameSize(needFlagSequence: bool, packet: seq<byte>)
    ensures |EncodeFrame(needFlagSequence, packet)| <= 8 + 2 * |packet| + |Opening(needFlagSequence)|
    ensures |EncodeFrame(needFlagSequence, packet)| <= 9 + 2 * |packet|
  {
    hide TrailerFor;
    StuffBound(packet + TrailerFor(true, packet));
  }

  // ---------- Receiving ----------

  /** The receiver's state: an illegal double escape was seen, or the bytes so far and a pending escape. */
  datatype Unstuffed = Bad | Live(packet: seq<byte>, inEscape: bool)

  function Feed(st: Unstuffed, b: byte): Unstuffed {
    match st
    case Bad => Bad
    case Live(p, inEscape) =>
      if b == ESCAPE then (if inEscape then Bad else Live(p, true))
      else if inEscape then Live(p + [b ^ 0x20], false)
      else if InReceivingAccm(b) then st
      else Live(p + [b], false)
  }

  function Unstuff(st: Unstuffed, s: seq<byte>): Unstuffed {
    if s == [] then st else Feed(Unstuff(st, s[..|s| - 1]), s[|s| - 1])
  }

  const START := Live([], false)

  predicate HasAddressControl(frame: seq<byte>) {
    |frame| >= 3 && frame[0] == 0xff && frame[1] == 0x7d && frame[2] == 0x03 ^ 0x20
  }

  function Payload(frame: seq<byte>): seq<byte> {
    if HasAddressControl(frame) then frame[3..] else frame
  }

  /** Reference: the unstuffed payload must be a non-empty packet followed by the trailer a sender computes. */
  function DecodeFrame(frame: seq<byte>): Result<seq<byte>> {
    if |frame| < 5 then Err(HdlcInvalidFrame)
    else
      match Unstuff(START, Payload(frame))
      case Bad => Err(HdlcInvalidFrame)
      case Live(q, inEscape) =>
        if inEscape || |q| < 3 then Err(HdlcInvalidFrame)
        else if q[|q| - 2..] == TrailerFor(HasAddressControl(frame), q[..|q| - 2]) then Ok(q[..|q| - 2])
        else Err(HdlcBadChecksum)
  }

  lemma {:induction false} UnstuffConcat(st: Unstuffed, a: seq<byte>, b: seq<byte>)
    ensures Unstuff(st, a + b) == Unstuff(Unstuff(st, a), b)
  {
    hide Feed;
    if b == [] {
      assert a + b == a;
    } else {
      assert (a + b)[..|a + b| - 1] == a + b[..|b| - 1];
      UnstuffConcat(st, a, b[..|b| - 1]);
    }
  }

  lemma {:induction false} BadStays(s: seq<byte>)
    ensures Unstuff(Bad, s) == Bad
  {
    if s != [] {
      BadStays(s[..|s| - 1]);
    }
  }

  lemma UnstuffSnoc(st: Unstuffed, s: seq<byte>, i: nat)
    requires i < |s|
    ensures Unstuff(st, s[..i + 1]) == Feed(Unstuff(st, s[..i]), s[i])
  {
    hide Feed;
    assert s[..i + 1][..i] == s[..i];
  }

  /** The residue test of the receiver is the trailer comparison of the reference. */
  lemma ResidueIsTrailerTest(hasAddressControl: bool, initial: bv16, q: seq<byte>)
    requires |q| >= 2
    requires initial == if hasAddressControl then Fcs.ADDRESS_CONTROL_CHECKSUM else 0xffff
    ensures Fcs.Checksum(initial, q) == Fcs.GOOD_FINAL_FCS
            <==> q[|q| - 2..] == TrailerFor(hasAddressControl, q[..|q| - 2])
  {
    hide Fcs.Checksum, Fcs.TrailerOf;
    var p, t := q[..|q| - 2], q[|q| - 2..];
    assert q == p + t;
    Fcs.GoodFcsIffTrailer(initial, p, t);
    if hasAddressControl {
      Fcs.AddressControlPrefix(p);
    } else {
      assert Covered(false, p) == p;
    }
  }

  lemma BadForever(payload: seq<byte>, k: nat)
    requires k <= |payload| && Unstuff(START, payload[..k]) == Bad
    ensures Unstuff(START, payload) == Bad
  {
    hide Feed;
    BadStays(payload[k..]);
    UnstuffConcat(START, payload[..k], payload[k..]);
    assert payload[..k] + payload[k..] == payload;
  }

  /** The unstuffing loop of the decoder, stopped at an illegal double escape. */
  method UnstuffLoop(payload: seq<byte>) returns (result: Unstuffed)
    ensures result == Unstuff(START, payload)
  {
    var packet: seq<byte> := [];
    var inEscape := false;
    for i := 0 to |payload|
      invariant Unstuff(START, payload[..i]) == Live(packet, inEscape)
    {
      var b := payload[i];
      UnstuffSnoc(START, payload, i);
      if b == ESCAPE {
        if inEscape {
          BadForever(payload, i + 1);
          return Bad;
        }
        inEscape := true;
        continue;
      } else if inEscape {
        b := b ^ 0x20;
        inEscape := false;
      } else if InReceivingAccm(b) {
        continue;
      }
      packet := packet + [b];
    }
    assert payload[..|payload|] == payload;
    return Live(packet, inEscape);
  }

  method Decode(frame: seq<byte>) returns (result: Result<seq<byte>>)
    ensures result == DecodeFrame(frame)
  {
    hide Fcs.Checksum, TrailerFor, HasAddressControl, Feed;
    if |frame| < 5 {
      return Err(HdlcInvalidFrame);
    }
    var hasAddressControlFields := HasAddressControl(frame);
    var unstuffed := UnstuffLoop(if hasAddressControlFields then frame[3..] else frame);
    if unstuffed == Bad || unstuffed.inEscape || |unstuffed.packet| < 3 {
      return Err(HdlcInvalidFrame);
    }
    var packet := unstuffed.packet;
    var initial := if hasAddressControlFields then Fcs.ADDRESS_CONTROL_CHECKSUM else 0xffff;
    ResidueIsTrailerTest(hasAddressControlFields, initial, packet);
    var sum := Fcs.FrameChecksum16bit(initial, packet);
    if sum != Fcs.GOOD_FINAL_FCS {
      return Err(HdlcBadChecksum);
    }
    return Ok(packet[..|packet| - 2]);
  }

  // ---------- Decoding undoes encoding ----------

  lemma EscapeBits(b: byte)
    ensures InSendingAccm(b) ==> b ^ 0x20 != ESCAPE && b ^ 0x20 != FLAG && (b ^ 0x20) ^ 0x20 == b
    ensures !InSendingAccm(b) ==> b != ESCAPE && b != FLAG && !InReceivingAccm(b)
  {
  }

  lemma UnstuffEscaped(p: seq<byte>, b: byte)
    ensures Unstuff(Live(p, false), Escaped(b)) == Live(p + [b], false)
  {
    EscapeBits(b);
    var st := Live(p, false);
    if InSendingAccm(b) {
      var e := [ESCAPE, b ^ 0x20];
      assert e[..1] == [ESCAPE] && [ESCAPE][..0] == [];
      assert Unstuff(st, [ESCAPE]) == Live(p, true);
      assert Unstuff(st, e) == Feed(Live(p, true), b ^ 0x20);
    } else {
      assert [b][..0] == [];
      assert Unstuff(st, [b]) == Feed(st, b);
    }
  }

  lemma {:induction false} UnstuffUndoesStuff(p: seq<byte>, s: seq<byte>)
    ensures Unstuff(Live(p, false), Stuff(s)) == Live(p + s, false)
  {
    hide Feed, Escaped;
    var st := Live(p, false);
    if s == [] {
      assert p + s == p;
    } else {
      var n := |s| - 1;
      UnstuffUndoesStuff(p, s[..n]);
      UnstuffConcat(st, Stuff(s[..n]), Escaped(s[n]));
      UnstuffEscaped(p + s[..n], s[n]);
      assert p + s == p + s[..n] + [s[n]];
    }
  }

  /** What the sender escapes, and how: control bytes, escapes and flags, the last two with either top bit. */
  lemma EscapedBytes(b: byte)
    ensures Escaped(b) ==
            if b as int < 32 || b == 0x7d || b == 0x7e || b == 0xfd || b == 0xfe then [0x7d, b ^ 0x20] else [b]
  {
  }

  // ---------- Control bytes on the way ----------

  /** The bytes without the control bytes that stand unescaped among them. */
  function DropControls(inEscape: bool, s: seq<byte>): seq<byte>
    decreases |s|
  {
    if s == [] then []
    else if !inEscape && s[0] as int < 32 then DropControls(false, s[1..])
    else [s[0]] + DropControls(!inEscape && s[0] == 0x7d, s[1..])
  }

  lemma FeedFirst(st: Unstuffed, s: seq<byte>)
    requires s != []
    ensures Unstuff(st, s) == Unstuff(Feed(st, s[0]), s[1..])
  {
    hide Feed;
    UnstuffConcat(st, s[..1], s[1..]);
    assert s == s[..1] + s[1..] && s[..1][..0] == [];
  }

  lemma FeedEffect(p: seq<byte>, inEscape: bool, b: byte)
    ensures
      var next := Feed(Live(p, inEscape), b);
      if !inEscape && b as int < 32 then next == Live(p, false)
      else next == Bad || (next.Live? && next.inEscape == (!inEscape && b == 0x7d))
  {
    ControlByteIff(b);
  }

  lemma ControlByteIff(b: byte)
    ensures InReceivingAccm(b) <==> b as int < 32
    ensures b as int < 32 ==> b != ESCAPE
  {
  }

  /** The line may add control bytes: what is unstuffed is the same as without them. */
  lemma {:induction false} ControlsAreIgnored(p: seq<byte>, inEscape: bool, s: seq<byte>)
    ensures Unstuff(Live(p, inEscape), s) == Unstuff(Live(p, inEscape), DropControls(inEscape, s))
    decreases |s|
  {
    hide Feed;
    if s != [] {
      var st := Live(p, inEscape);
      FeedFirst(st, s);
      FeedEffect(p, inEscape, s[0]);
      var next := Feed(st, s[0]);
      if !inEscape && s[0] as int < 32 {
        ControlsAreIgnored(p, false, s[1..]);
      } else {
        var rest := DropControls(!inEscape && s[0] == 0x7d, s[1..]);
        FeedFirst(st, [s[0]] + rest);
        assert ([s[0]] + rest)[1..] == rest;
        if next == Bad {
          BadStays(s[1..]);
          BadStays(rest);
        } else {
          ControlsAreIgnored(next.packet, next.inEscape, s[1..]);
        }
      }
    }
  }

  /** So a frame is decoded to its packet with any control bytes added behind its header. */
  lemma ControlsChangeNothing(packet: seq<byte>, s: seq<byte>)
    requires packet != [] && DropControls(false, s) == Stuff(packet + TrailerFor(true, packet))
    ensures DecodeFrame(HEADER + s) == Ok(packet)
  {
    hide TrailerFor, Feed, Stuff, Unstuff;
    var q := packet + TrailerFor(true, packet);
    ControlsAreIgnored([], false, s);
    UnstuffUndoesStuff([], q);
    assert [] + q == q;
    assert (HEADER + s)[..3] == HEADER && (HEADER + s)[3..] == s;
    assert q[..|packet|] == packet && q[|packet|..] == TrailerFor(true, packet);
    DroppedIsShorter(false, s);
    StuffedHasNoFlag(q);
  }

  lemma {:induction false} DroppedIsShorter(inEscape: bool, s: seq<byte>)
    ensures |DropControls(inEscape, s)| <= |s|
    decreases |s|
  {
    if s != [] {
      DroppedIsShorter(false, s[1..]);
      DroppedIsShorter(!inEscape && s[0] == 0x7d, s[1..]);
    }
  }

  /** Every frame: at least five bytes, no escape left open or doubled, at least three bytes unstuffed, the trailer. */
  lemma DecodeOutcome(frame: seq<byte>)
    ensures |frame| < 5 ==> DecodeFrame(frame) == Err(HdlcInvalidFrame)
    ensures |frame| >= 5 ==>
              var header := frame[..3] == [0xff, 0x7d, 0x23];
              var u := Unstuff(START, if header then frame[3..] else frame);
              if u == Bad || u.inEscape || |u.packet| < 3 then DecodeFrame(frame) == Err(HdlcInvalidFrame)
              else
                var n := |u.packet| - 2;
                DecodeFrame(frame) == if u.packet[n..] == TrailerFor(header, u.packet[..n]) then Ok(u.packet[..n])
                                      else Err(HdlcBadChecksum)
  {
    hide TrailerFor, Unstuff;
    if |frame| >= 3 {
      assert frame[..3] == [frame[0], frame[1], frame[2]];
    }
  }

  ghost predicate NoFlag(s: seq<byte>) {
    forall i :: 0 <= i < |s| ==> s[i] != FLAG
  }

  lemma {:induction false} StuffedHasNoFlag(s: seq<byte>)
    ensures NoFlag(Stuff(s))
    ensures |Stuff(s)| >= |s|
  {
    if s != [] {
      StuffedHasNoFlag(s[..|s| - 1]);
      EscapeBits(s[|s| - 1]);
    }
  }

  lemma FrameBodyHasNoFlag(packet: seq<byte>)
    ensures NoFlag(FrameBody(packet)) && |FrameBody(packet)| >= 5
  {
    hide TrailerFor;
    StuffedHasNoFlag(packet + TrailerFor(true, packet));
  }

  /** A packet survives encoding and decoding exactly when it is not empty. */
  lemma DecodeUndoesEncode(packet: seq<byte>)
    ensures DecodeFrame(FrameBody(packet)) == if packet == [] then Err(HdlcInvalidFrame) else Ok(packet)
  {
    hide TrailerFor, Feed, Stuff;
    FrameBodyHasNoFlag(packet);
    var frame, t := FrameBody(packet), TrailerFor(true, packet);
    assert frame[..3] == HEADER && frame[3..] == Stuff(packet + t);
    UnstuffUndoesStuff([], packet + t);
    assert [] + (packet + t) == packet + t;
    assert (packet + t)[..|packet|] == packet && (packet + t)[|packet|..] == t;
  }

  /**
   * If two frames unstuff to strings that differ only inside one burst of at most 16 bits, and the first is
   * accepted, then the second is rejected for its checksum.
   */
  lemma DecodeRejectsBursts(f: seq<byte>, g: seq<byte>, q: seq<byte>, r: seq<byte>, i: nat, k: bv8)
    requires DecodeFrame(f).Ok? && |g| >= 5 && HasAddressControl(f) == HasAddressControl(g)
    requires Unstuff(START, Payload(f)) == Live(q, false) && Unstuff(START, Payload(g)) == Live(r, false)
    requires q != r && Fcs.BurstAt(q, r, i, k)
    ensures DecodeFrame(g) == Err(HdlcBadChecksum)
  {
    hide Fcs.Checksum, Fcs.BurstAt, TrailerFor, Payload;
    assert |q| == |r| by { BurstLength(q, r, i, k); }
    var initial := if HasAddressControl(f) then Fcs.ADDRESS_CONTROL_CHECKSUM else 0xffff;
    ResidueIsTrailerTest(HasAddressControl(f), initial, q);
    ResidueIsTrailerTest(HasAddressControl(f), initial, r);
    if Fcs.Checksum(initial, r) == Fcs.GOOD_FINAL_FCS {
      Fcs.BurstsAreDetected(initial, q, r, i, k);
    }
  }

  lemma BurstLength(q: seq<byte>, r: seq<byte>, i: nat, k: bv8)
    requires Fcs.BurstAt(q, r, i, k)
    ensures |q| == |r|
  {
  }
}
