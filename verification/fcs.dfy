/** The 16-bit frame check sequence of HDLC-like framing (RFC 1662, section 3.1 and appendix C.2). */
module Fcs {
  import opened Bytes
  import opened FcsTable

  const ADDRESS_CONTROL_CHECKSUM: bv16 := 0x3de3
  const GOOD_FINAL_FCS: bv16 := 0xf0b8

  // ---------- The reference: a shift register fed one bit at a time ----------

  const BITS_PER_BYTE: nat := 8

  function Shift(v: bv16, n: nat): bv16 {
    if n == 0 then v else BitStep(Shift(v, n - 1))
  }

  function Xor(a: bv16, b: bv16): bv16 {
    a ^ b
  }

  function ByteStep(sum: bv16, b: byte): bv16 {
    Shift(Xor(sum, b as bv16), BITS_PER_BYTE)
  }

  function Checksum(sum: bv16, s: seq<byte>): bv16 {
    if s == [] then sum else ByteStep(Checksum(sum, s[..|s| - 1]), s[|s| - 1])
  }

  function LowByte(v: bv16): byte {
    (v & 0xff) as byte
  }

  function HighByte(v: bv16): byte {
    (v >> 8) as byte
  }

  function Complement(v: bv16): bv16 {
    v ^ 0xffff
  }

  /** The complemented register, low byte first. */
  function TrailerOf(sum: bv16): (t: seq<byte>)
    ensures |t| == 2
  {
    [LowByte(Complement(sum)), HighByte(Complement(sum))]
  }

  /** The two bytes a sender appends to `s`. */
  function Trailer(sum: bv16, s: seq<byte>): (t: seq<byte>)
    ensures |t| == 2
  {
    TrailerOf(Checksum(sum, s))
  }

  lemma {:induction false} ChecksumConcat(sum: bv16, a: seq<byte>, b: seq<byte>)
    ensures Checksum(sum, a + b) == Checksum(Checksum(sum, a), b)
  {
    if b == [] {
      assert a + b == a;
    } else {
      assert (a + b)[..|a + b| - 1] == a + b[..|b| - 1];
      ChecksumConcat(sum, a, b[..|b| - 1]);
    }
  }

  // ---------- The table refines the shift register ----------

  lemma ShiftOfByte(v: bv16)
    ensures Shift(v, BITS_PER_BYTE) == EightSteps(v)
  {
    assert Shift(v, 1) == BitStep(Shift(v, 0));
    assert Shift(v, 2) == BitStep(BitStep(v));
    assert Shift(v, 4) == BitStep(BitStep(Shift(v, 2)));
    assert Shift(v, 6) == BitStep(BitStep(Shift(v, 4)));
  }

  lemma XorDef(v: bv16, w: bv16)
    ensures Xor(v, w) == v ^ w
  {
  }

  lemma BitStepOfXor(v: bv16, w: bv16)
    ensures BitStep(v ^ w) == BitStep(v) ^ BitStep(w)
  {
  }

  lemma BitStepLinear(v: bv16, w: bv16)
    ensures BitStep(Xor(v, w)) == Xor(BitStep(v), BitStep(w))
  {
    hide Xor, BitStep;
    XorDef(v, w);
    XorDef(BitStep(v), BitStep(w));
    BitStepOfXor(v, w);
  }

  lemma {:induction false} ShiftLinear(v: bv16, w: bv16, n: nat)
    ensures Shift(Xor(v, w), n) == Xor(Shift(v, n), Shift(w, n))
  {
    hide Xor, BitStep;
    if n > 0 {
      ShiftLinear(v, w, n - 1);
      BitStepLinear(Shift(v, n - 1), Shift(w, n - 1));
    }
  }

  lemma SplitBytes(v: bv16)
    ensures v == Xor(v & 0xff00, v & 0xff)
    ensures v & 0xff < 256
  {
  }

  lemma EightStepsOfHigh(v: bv16)
    ensures EightSteps(v & 0xff00) == v >> 8
  {
  }

  lemma ShiftOfHigh(v: bv16, high: bv16)
    requires high == v & 0xff00
    ensures Shift(high, BITS_PER_BYTE) == v >> 8
  {
    EightStepsOfHigh(v);
    ShiftOfByte(high);
  }

  lemma HighByteShiftsDown(v: bv16, high: bv16, low: bv16)
    requires v == Xor(high, low)
    requires Shift(high, BITS_PER_BYTE) == v >> 8
    ensures Shift(v, BITS_PER_BYTE) == Xor(v >> 8, Shift(low, BITS_PER_BYTE))
  {
    hide Xor, Shift;
    ShiftLinear(high, low, BITS_PER_BYTE);
  }

  lemma XorByteKeepsHigh(sum: bv16, b: byte)
    ensures Xor(sum, b as bv16) >> 8 == sum >> 8
  {
  }

  function Entry(index: bv16): bv16
    requires index < 256
  {
    FcsTab()[index as int]
  }

  lemma TableEntry(index: bv16)
    requires index < 256
    ensures Entry(index) == Shift(index, BITS_PER_BYTE)
  {
    hide EightSteps, FcsTab;
    FcsTabIsBitSerial(index);
    ShiftOfByte(index);
  }

  lemma TableStep(sum: bv16, b: byte, v: bv16, index: bv16)
    requires v == Xor(sum, b as bv16) && index == v & 0xff
    ensures index < 256
    ensures Xor(sum >> 8, Entry(index)) == ByteStep(sum, b)
  {
    hide Xor, Shift, Entry;
    SplitBytes(v);
    ShiftOfHigh(v, v & 0xff00);
    HighByteShiftsDown(v, v & 0xff00, index);
    XorByteKeepsHigh(sum, b);
    TableEntry(index);
  }

  lemma TableUpdate(sum: bv16, b: byte, index: bv16)
    requires index == (sum ^ (b as bv16)) & 0xff
    ensures index < 256
    ensures (sum >> 8) ^ Entry(index) == ByteStep(sum, b)
  {
    hide Xor, ByteStep, Entry;
    XorDef(sum, b as bv16);
    TableStep(sum, b, Xor(sum, b as bv16), index);
    XorDef(sum >> 8, Entry(index));
  }

  method FrameChecksum16bit(initial: bv16, s: seq<byte>) returns (sum: bv16)
    ensures sum == Checksum(initial, s)
  {
    hide ByteStep, FcsTab;
    sum := initial;
    for i := 0 to |s|
      invariant sum == Checksum(initial, s[..i])
    {
      assert s[..i + 1][..i] == s[..i];
      var index := (sum ^ (s[i] as bv16)) & 0xff;
      TableUpdate(sum, s[i], index);
      sum := (sum >> 8) ^ FcsTab()[index as int];
    }
    assert s[..|s|] == s;
  }

  /** The precomputed start value accounts for the address and control bytes that precede every packet. */
  lemma {:induction false} AddressControlPrefix(s: seq<byte>)
    ensures Checksum(0xffff, [0xff, 0x03] + s) == Checksum(ADDRESS_CONTROL_CHECKSUM, s)
  {
    assert [0xff, 0x03][..1] == [0xff] && [0xff][..0] == [];
    ShiftOfByte(0xffff ^ 0xff);
    ShiftOfByte(ByteStep(0xffff, 0xff) ^ 0x03);
    assert ByteStep(ByteStep(0xffff, 0xff), 0x03) == ADDRESS_CONTROL_CHECKSUM;
    assert Checksum(0xffff, [0xff]) == ByteStep(0xffff, 0xff);
    assert Checksum(0xffff, [0xff, 0x03]) == ADDRESS_CONTROL_CHECKSUM;
    ChecksumConcat(0xffff, [0xff, 0x03], s);
  }

  lemma ChecksumOfTwo(sum: bv16, t: seq<byte>)
    requires |t| == 2
    ensures Checksum(sum, t) == ByteStep(ByteStep(sum, t[0]), t[1])
  {
    assert t == [t[0], t[1]] && t[..1] == [t[0]] && t[..1][..0] == [];
    assert Checksum(sum, [t[0]]) == ByteStep(Checksum(sum, []), t[0]);
  }

  // ---------- Error detection ----------

  function XorBytes(x: seq<byte>, y: seq<byte>): (e: seq<byte>)
    requires |x| == |y|
    ensures |e| == |x|
    ensures forall i :: 0 <= i < |e| ==> e[i] == x[i] ^ y[i]
  {
    seq(|x|, i requires 0 <= i < |x| => x[i] ^ y[i])
  }

  lemma XorAssociative(a: bv16, b: bv16, c: bv16)
    ensures Xor(Xor(a, b), c) == Xor(a, Xor(b, c))
  {
  }

  lemma XorCommutative(a: bv16, b: bv16)
    ensures Xor(a, b) == Xor(b, a)
  {
  }

  lemma XorOfBytes(x: byte, y: byte)
    ensures Xor(x as bv16, y as bv16) == (x ^ y) as bv16
  {
  }

  lemma XorRegroup(a: bv16, b: bv16, x: bv16, y: bv16)
    ensures Xor(Xor(a, x), Xor(b, y)) == Xor(Xor(a, b), Xor(x, y))
  {
    hide Xor;
    XorAssociative(a, x, Xor(b, y));
    XorAssociative(x, b, y);
    XorCommutative(x, b);
    XorAssociative(b, x, y);
    XorAssociative(a, b, Xor(x, y));
  }

  lemma StepDifference(a: bv16, b: bv16, d: bv16, x: byte, y: byte, e: byte)
    requires d == Xor(a, b) && e == x ^ y
    ensures ByteStep(d, e) == Xor(ByteStep(a, x), ByteStep(b, y))
  {
    hide Xor, Shift;
    XorRegroup(a, b, x as bv16, y as bv16);
    XorOfBytes(x, y);
    ShiftLinear(Xor(a, x as bv16), Xor(b, y as bv16), BITS_PER_BYTE);
  }

  lemma XorBitsZero(v: bv16, w: bv16)
    ensures v ^ w == 0 <==> v == w
  {
  }

  lemma XorIsZero(v: bv16, w: bv16)
    ensures Xor(v, w) == 0 <==> v == w
  {
    hide Xor;
    XorDef(v, w);
    XorBitsZero(v, w);
  }

  /** The checksums of two strings differ by the checksum of their difference. */
  lemma {:induction false} DifferenceOfChecksums(v: bv16, x: seq<byte>, w: bv16, y: seq<byte>, d: bv16)
    requires |x| == |y| && d == Xor(v, w)
    ensures Checksum(d, XorBytes(x, y)) == Xor(Checksum(v, x), Checksum(w, y))
  {
    hide Xor, ByteStep;
    if x != [] {
      var n := |x| - 1;
      var e := XorBytes(x, y);
      DifferenceOfChecksums(v, x[..n], w, y[..n], d);
      assert e[..n] == XorBytes(x[..n], y[..n]);
      StepDifference(Checksum(v, x[..n]), Checksum(w, y[..n]), Checksum(d, e[..n]), x[n], y[n], e[n]);
    }
  }

  /** An error pattern goes unnoticed exactly when its own zero-started checksum is zero. */
  lemma {:induction false} UndetectedIff(sum: bv16, x: seq<byte>, y: seq<byte>)
    requires |x| == |y|
    ensures Checksum(sum, x) == Checksum(sum, y) <==> Checksum(0, XorBytes(x, y)) == 0
  {
    hide *;
    XorIsZero(Checksum(sum, x), Checksum(sum, y));
    XorIsZero(sum, sum);
    DifferenceOfChecksums(sum, x, sum, y, 0);
  }

  lemma {:induction false} ShiftKeepsNonzero(v: bv16, n: nat)
    ensures Shift(v, n) == 0 <==> v == 0
  {
    hide BitStep;
    if n > 0 {
      ShiftKeepsNonzero(v, n - 1);
      BitStepKeepsNonzero(Shift(v, n - 1));
    }
  }

  lemma BitStepKeepsNonzero(v: bv16)
    ensures BitStep(v) == 0 <==> v == 0
  {
  }

  lemma XorWithZero(v: bv16)
    ensures Xor(v, 0) == v && Xor(0, v) == v
  {
  }

  lemma {:induction false} ZerosKeepNonzero(v: bv16, z: seq<byte>)
    requires forall i :: 0 <= i < |z| ==> z[i] == 0
    ensures Checksum(v, z) == 0 <==> v == 0
  {
    if z != [] {
      ZerosKeepNonzero(v, z[..|z| - 1]);
      XorWithZero(Checksum(v, z[..|z| - 1]));
      ShiftKeepsNonzero(Checksum(v, z[..|z| - 1]), BITS_PER_BYTE);
    }
  }

  /** No nonzero pattern inside a 16-bit window (in transmission order, low bit first) returns to zero. */
  lemma WindowIsInjective(d0: byte, d1: byte, d2: byte, k: bv8)
    requires k <= 8
    requires d0 & ((1 << k) - 1) == 0 && d2 >> k == 0
    requires EightSteps(EightSteps(d0 as bv16) ^ (d1 as bv16)) == d2 as bv16
    ensures d0 == 0 && d1 == 0 && d2 == 0
  {
    if k == 0 {
    } else if k == 1 {
    } else if k == 2 {
    } else if k == 3 {
    } else if k == 4 {
    } else if k == 5 {
    } else if k == 6 {
    } else if k == 7 {
    } else {
    }
  }

  function At(s: seq<byte>, i: nat): byte {
    if i < |s| then s[i] else 0
  }

  /**
   * `x` and `y` differ only inside a window of 16 consecutive transmitted bits: the high 8 - k bits of byte i,
   * byte i + 1, and the low k bits of byte i + 2. With k == 0 or k == 8 the window is two whole adjacent bytes.
   */
  ghost predicate BurstAt(x: seq<byte>, y: seq<byte>, i: nat, k: bv8) {
    && |x| == |y| && k <= 8
    && (forall j :: 0 <= j < |x| && !(i <= j < i + 3) ==> x[j] == y[j])
    && (At(x, i) ^ At(y, i)) & ((1 << k) - 1) == 0
    && (At(x, i + 2) ^ At(y, i + 2)) >> k == 0
  }

  lemma XorZero(a: byte, b: byte)
    ensures a ^ b == 0 <==> a == b
  {
  }

  lemma ChecksumOfThree(sum: bv16, t: seq<byte>)
    requires |t| == 3
    ensures Checksum(sum, t) == ByteStep(ByteStep(ByteStep(sum, t[0]), t[1]), t[2])
  {
    ChecksumOfTwo(sum, t[..2]);
  }

  lemma {:induction false} PatternInWindow(e: seq<byte>, i: nat, k: bv8)
    requires k <= 8 && i + 3 <= |e|
    requires forall j :: 0 <= j < |e| && !(i <= j < i + 3) ==> e[j] == 0
    requires e[i] & ((1 << k) - 1) == 0 && e[i + 2] >> k == 0
    requires Checksum(0, e) == 0
    ensures forall j :: 0 <= j < |e| ==> e[j] == 0
  {
    var zeros, window, rest := e[..i], e[i..i + 3], e[i + 3..];
    assert e == zeros + window + rest;
    ChecksumConcat(0, zeros + window, rest);
    ZerosKeepNonzero(Checksum(0, zeros + window), rest);
    ChecksumConcat(0, zeros, window);
    ZerosKeepNonzero(0, zeros);
    ChecksumOfThree(0, window);
    var v1 := ByteStep(0, e[i]);
    ThreeStepsToZero(e[i], e[i + 1], e[i + 2], v1, ByteStep(v1, e[i + 1]));
    WindowIsInjective(e[i], e[i + 1], e[i + 2], k);
  }

  lemma FirstStep(d0: byte)
    ensures ByteStep(0, d0) == EightSteps(d0 as bv16)
  {
    XorWithZero(d0 as bv16);
    ShiftOfByte(d0 as bv16);
  }

  lemma StepAsEight(v: bv16, d1: byte)
    ensures ByteStep(v, d1) == EightSteps(v ^ (d1 as bv16))
  {
    hide Shift, EightSteps;
    ShiftOfByte(v ^ (d1 as bv16));
  }

  lemma ThreeStepsToZero(d0: byte, d1: byte, d2: byte, v1: bv16, v2: bv16)
    requires v1 == ByteStep(0, d0) && v2 == ByteStep(v1, d1)
    requires ByteStep(v2, d2) == 0
    ensures v1 == EightSteps(d0 as bv16)
    ensures v2 == EightSteps(v1 ^ (d1 as bv16))
    ensures v2 == d2 as bv16
  {
    FirstStep(d0);
    StepAsEight(v1, d1);
    ZeroAfterByte(v2, d2);
  }

  lemma ZeroAfterByte(v: bv16, b: byte)
    ensures ByteStep(v, b) == 0 <==> v == b as bv16
  {
    ShiftKeepsNonzero(v ^ (b as bv16), BITS_PER_BYTE);
    XorIsZero(v, b as bv16);
  }

  /** Every burst of at most 16 bits changes the checksum, whatever the length of the string. */
  lemma {:induction false} BurstsAreDetected(sum: bv16, x: seq<byte>, y: seq<byte>, i: nat, k: bv8)
    requires BurstAt(x, y, i, k)
    requires Checksum(sum, x) == Checksum(sum, y)
    ensures x == y
  {
    hide Checksum;
    UndetectedIff(sum, x, y);
    var e := XorBytes(x, y);
    var padding := seq(i + 3, _ => 0 as byte);
    ChecksumConcat(0, e, padding);
    ZerosKeepNonzero(0, padding);
    forall j | 0 <= j < |e + padding| && !(i <= j < i + 3) ensures (e + padding)[j] == 0 {
      if j < |x| {
        XorZero(x[j], y[j]);
      }
    }
    PatternInWindow(e + padding, i, k);
    forall j | 0 <= j < |x| ensures x[j] == y[j] {
      assert (e + padding)[j] == e[j];
      XorZero(x[j], y[j]);
    }
  }

  // ---------- The residue test ----------

  lemma LowTrailerByte(sum: bv16, lo: byte)
    requires lo == ((sum ^ 0xffff) & 0xff) as byte
    ensures sum ^ (lo as bv16) == sum | 0xff
  {
  }

  lemma EightStepsAllOnesLow(sum: bv16)
    ensures EightSteps(sum | 0xff) == (sum >> 8) ^ 0x0f78
  {
  }

  lemma HighTrailerByte(sum: bv16, hi: byte)
    requires hi == ((sum ^ 0xffff) >> 8) as byte
    ensures ((sum >> 8) ^ 0x0f78) ^ (hi as bv16) == 0x0f87
  {
  }

  lemma EightStepsOfLast()
    ensures EightSteps(0x0f87) == GOOD_FINAL_FCS
  {
  }

  lemma TrailerIsGood(sum: bv16, t: seq<byte>)
    requires t == TrailerOf(sum)
    ensures Checksum(sum, t) == GOOD_FINAL_FCS
  {
    hide EightSteps, ByteStep;
    ChecksumOfTwo(sum, t);
    var v := (sum >> 8) ^ 0x0f78;
    assert [t[0], t[1]] == t;
    LowTrailerByte(sum, t[0]);
    EightStepsAllOnesLow(sum);
    StepAsEight(sum, t[0]);
    HighTrailerByte(sum, t[1]);
    EightStepsOfLast();
    StepAsEight(v, t[1]);
  }

  /** The receiver's residue test accepts exactly the strings that end in the sender's trailer. */
  lemma {:induction false} GoodFcsIffTrailer(sum: bv16, s: seq<byte>, t: seq<byte>)
    requires |t| == 2
    ensures Checksum(sum, s + t) == GOOD_FINAL_FCS <==> t == Trailer(sum, s)
  {
    var c := Checksum(sum, s);
    ChecksumConcat(sum, s, t);
    TrailerIsGood(c, TrailerOf(c));
    if Checksum(c, t) == GOOD_FINAL_FCS {
      assert BurstAt(t, TrailerOf(c), 0, 0);
      BurstsAreDetected(c, t, TrailerOf(c), 0, 0);
    }
  }
}
