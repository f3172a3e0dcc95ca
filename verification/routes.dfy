/** Route prefixes: the walk over a dotted netmask, and the routes a proxied destination may take. */
module Routes {
  import opened Bytes
  import opened IpcpOptions

  // ---------- 32-bit words, as bits with the most significant first ----------

  type Word = w: seq<bool> | |w| == 32 witness seq(32, _ => false)

  predicate BitAt(octet: byte, bit: nat)
    requires bit < 8
  {
    octet & ((1 as byte) << bit) != 0
  }

  function OctetBits(octet: byte): (bits: seq<bool>)
    ensures |bits| == 8
  {
    seq(8, k requires 0 <= k < 8 => BitAt(octet, 7 - k))
  }

  function WordOf(ip: Ipv4Addr): Word {
    OctetBits(ip.a) + OctetBits(ip.b) + OctetBits(ip.c) + OctetBits(ip.d)
  }

  lemma BitsOf(octet: byte, bit: nat)
    requires bit < 8
    ensures OctetBits(octet)[7 - bit] == BitAt(octet, bit)
  {
  }

  lemma OctetBitsInjective(a: byte, b: byte)
    requires OctetBits(a) == OctetBits(b)
    ensures a == b
  {
    forall bit | 0 <= bit < 8 ensures BitAt(a, bit) == BitAt(b, bit) {
      BitsOf(a, bit);
      BitsOf(b, bit);
    }
    SameBits(a, b);
  }

  lemma SameBits(a: byte, b: byte)
    requires BitAt(a, 0) == BitAt(b, 0) && BitAt(a, 1) == BitAt(b, 1)
    requires BitAt(a, 2) == BitAt(b, 2) && BitAt(a, 3) == BitAt(b, 3)
    requires BitAt(a, 4) == BitAt(b, 4) && BitAt(a, 5) == BitAt(b, 5)
    requires BitAt(a, 6) == BitAt(b, 6) && BitAt(a, 7) == BitAt(b, 7)
    ensures a == b
  {
  }

  lemma FourParts<T>(a: seq<T>, b: seq<T>, c: seq<T>, d: seq<T>, a': seq<T>, b': seq<T>, c': seq<T>, d': seq<T>)
    requires |a| == |a'| && |b| == |b'| && |c| == |c'| && |d| == |d'|
    requires a + b + c + d == a' + b' + c' + d'
    ensures a == a' && b == b' && c == c' && d == d'
  {
    var w := a + b + c + d;
    var i, j, k := |a|, |a| + |b|, |a| + |b| + |c|;
    assert w[..i] == a && w[i..j] == b && w[j..k] == c && w[k..] == d;
    assert w[..i] == a' && w[i..j] == b' && w[j..k] == c' && w[k..] == d';
  }

  /** An address and its word determine each other. */
  lemma WordInjective(x: Ipv4Addr, y: Ipv4Addr)
    requires WordOf(x) == WordOf(y)
    ensures x == y
  {
    hide OctetBits;
    FourParts(OctetBits(x.a), OctetBits(x.b), OctetBits(x.c), OctetBits(x.d),
              OctetBits(y.a), OctetBits(y.b), OctetBits(y.c), OctetBits(y.d));
    OctetBitsInjective(x.a, y.a);
    OctetBitsInjective(x.b, y.b);
    OctetBitsInjective(x.c, y.c);
    OctetBitsInjective(x.d, y.d);
  }

  // ---------- The number that bits stand for ----------

  function Pow2(n: nat): (r: nat)
    ensures r > 0
  {
    if n == 0 then 1 else 2 * Pow2(n - 1)
  }

  /** The first bit counts most. */
  function Value(bits: seq<bool>): nat {
    if bits == [] then 0 else 2 * Value(bits[..|bits| - 1]) + if bits[|bits| - 1] then 1 else 0
  }

  /** An address as a 32-bit number, its first octet counting most. */
  function Number(ip: Ipv4Addr): nat {
    ip.a as int * 0x100_0000 + ip.b as int * 0x1_0000 + ip.c as int * 0x100 + ip.d as int
  }

  lemma {:induction false} ValueBound(bits: seq<bool>)
    ensures Value(bits) < Pow2(|bits|)
  {
    if bits != [] {
      ValueBound(bits[..|bits| - 1]);
    }
  }

  lemma Doubled(x: nat, y: nat)
    ensures x * (2 * y) == 2 * (x * y)
  {
  }

  lemma {:induction false} ValueConcat(a: seq<bool>, b: seq<bool>)
    ensures Value(a + b) == Value(a) * Pow2(|b|) + Value(b)
  {
    if b == [] {
      assert a + b == a;
    } else {
      assert (a + b)[..|a + b| - 1] == a + b[..|b| - 1];
      ValueConcat(a, b[..|b| - 1]);
      Doubled(Value(a), Pow2(|b| - 1));
    }
  }

  lemma {:induction false} ValueInjective(a: seq<bool>, b: seq<bool>)
    requires |a| == |b| && Value(a) == Value(b)
    ensures a == b
  {
    if a != [] {
      ValueInjective(a[..|a| - 1], b[..|b| - 1]);
      SnocOf(a);
      SnocOf(b);
    }
  }

  lemma {:induction false} ValueOfOnes(n: nat)
    ensures Value(Ones(n)) == Pow2(n) - 1
  {
    if n > 0 {
      assert Ones(n)[..n - 1] == Ones(n - 1);
      ValueOfOnes(n - 1);
    }
  }

  lemma {:induction false} ValueOfZeros(n: nat)
    ensures Value(Zeros(n)) == 0
  {
    if n > 0 {
      assert Zeros(n)[..n - 1] == Zeros(n - 1);
      ValueOfZeros(n - 1);
    }
  }

  lemma BitsSum(octet: byte)
    ensures octet as int ==
            (if BitAt(octet, 7) then 128 else 0) + (if BitAt(octet, 6) then 64 else 0)
            + (if BitAt(octet, 5) then 32 else 0) + (if BitAt(octet, 4) then 16 else 0)
            + (if BitAt(octet, 3) then 8 else 0) + (if BitAt(octet, 2) then 4 else 0)
            + (if BitAt(octet, 1) then 2 else 0) + (if BitAt(octet, 0) then 1 else 0)
  {
  }

  /** The bits of an octet, most significant first, stand for it. */
  lemma OctetValue(octet: byte)
    ensures Value(OctetBits(octet)) == octet as int
  {
    hide BitAt, Value;
    BitsSum(octet);
    var b := OctetBits(octet);
    ValueStart(b);
    ValueStep(b, 0);
    ValueStep(b, 1);
    ValueStep(b, 2);
    ValueStep(b, 3);
    ValueStep(b, 4);
    ValueStep(b, 5);
    ValueStep(b, 6);
    ValueStep(b, 7);
  }

  lemma ValueStart(bits: seq<bool>)
    ensures Value(bits[..0]) == 0 && bits[..|bits|] == bits
  {
  }

  lemma ValueStep(bits: seq<bool>, k: nat)
    requires k < |bits|
    ensures Value(bits[..k + 1]) == 2 * Value(bits[..k]) + if bits[k] then 1 else 0
  {
    assert bits[..k + 1][..k] == bits[..k];
  }

  lemma EightBits()
    ensures Pow2(8) == 256
  {
    assert Pow2(4) == 16;
  }

  lemma ValueWithOctet(bits: seq<bool>, octet: byte)
    ensures Value(bits + OctetBits(octet)) == 256 * Value(bits) + octet as int
  {
    hide OctetBits, Value, Pow2;
    ValueConcat(bits, OctetBits(octet));
    OctetValue(octet);
    EightBits();
  }

  /** The word of an address stands for its number. */
  lemma WordValue(ip: Ipv4Addr)
    ensures Value(WordOf(ip)) == Number(ip)
  {
    hide OctetBits, Value;
    var a, b, c := OctetBits(ip.a), OctetBits(ip.b), OctetBits(ip.c);
    OctetValue(ip.a);
    ValueWithOctet(a, ip.b);
    ValueWithOctet(a + b, ip.c);
    ValueWithOctet(a + b + c, ip.d);
  }

  function Ones(n: nat): (bits: seq<bool>)
    ensures |bits| == n && forall i :: 0 <= i < n ==> bits[i]
  {
    seq(n, _ => true)
  }

  function Zeros(n: nat): (bits: seq<bool>)
    ensures |bits| == n && forall i :: 0 <= i < n ==> !bits[i]
  {
    seq(n, _ => false)
  }

  function And(a: Word, b: Word): (w: Word)
    ensures forall i :: 0 <= i < 32 ==> w[i] == (a[i] && b[i])
  {
    seq(32, i requires 0 <= i < 32 => a[i] && b[i])
  }

  function ShiftLeft(w: Word, n: nat): Word
    requires n < 32
  {
    w[n..] + Zeros(n)
  }

  function PrefixMask(prefix: nat): Word
    requires prefix <= 32
  {
    if prefix == 0 then Zeros(32) else ShiftLeft(Ones(32), 32 - prefix)
  }

  // ---------- Netmask to prefix ----------

  /** The parts between the dots; a part that is no number up to 255 has no value. */
  type MaskText = seq<Option<byte>>

  predicate AllOctets(parts: MaskText) {
    forall part :: part in parts ==> part.Some?
  }

  function MaskBits(parts: MaskText): (bits: seq<bool>)
    requires AllOctets(parts)
    ensures |bits| == 8 * |parts|
  {
    if parts == [] then [] else MaskBits(parts[..|parts| - 1]) + OctetBits(parts[|parts| - 1].value)
  }

  function MaskNumber(parts: MaskText): nat
    requires AllOctets(parts)
  {
    if parts == [] then 0 else 256 * MaskNumber(parts[..|parts| - 1]) + parts[|parts| - 1].value as int
  }

  /** The text is that of four octets, and as a 32-bit number it has that many ones and then zeros. */
  predicate IsMask(parts: MaskText, prefix: nat) {
    |parts| == 4 && AllOctets(parts) && prefix <= 32 && MaskNumber(parts) == 0x1_0000_0000 - Pow2(32 - prefix)
  }

  lemma {:induction false} MaskValue(parts: MaskText)
    requires AllOctets(parts)
    ensures Value(MaskBits(parts)) == MaskNumber(parts)
  {
    hide OctetBits, Value;
    if parts == [] {
      ValueStart([]);
    } else {
      var init, last := parts[..|parts| - 1], parts[|parts| - 1].value;
      MaskValue(init);
      ValueWithOctet(MaskBits(init), last);
    }
  }

  lemma {:induction false} PowSum(m: nat, n: nat)
    ensures Pow2(m) * Pow2(n) == Pow2(m + n)
  {
    if m > 0 {
      PowSum(m - 1, n);
      Doubled(Pow2(n), Pow2(m - 1));
    }
  }

  lemma ThirtyTwoBits()
    ensures Pow2(32) == 0x1_0000_0000
  {
    EightBits();
    PowSum(8, 8);
    PowSum(16, 16);
  }

  /** A mask is the number of its ones followed by zeros. */
  lemma PrefixMaskValue(prefix: nat)
    requires prefix <= 32
    ensures Value(PrefixMask(prefix)) == 0x1_0000_0000 - Pow2(32 - prefix)
  {
    hide Value, Ones, Zeros;
    PrefixMaskBits(prefix);
    ValueConcat(Ones(prefix), Zeros(32 - prefix));
    ValueOfOnes(prefix);
    ValueOfZeros(32 - prefix);
    PowSum(prefix, 32 - prefix);
    ThirtyTwoBits();
    OneLess(Pow2(prefix), Pow2(32 - prefix));
  }

  lemma OneLess(x: nat, y: nat)
    requires x > 0
    ensures (x - 1) * y == x * y - y
  {
  }

  lemma MaskIffBits(parts: MaskText, prefix: nat)
    requires AllOctets(parts) && |parts| == 4
    ensures IsMask(parts, prefix) <==> prefix <= 32 && MaskBits(parts) == PrefixMask(prefix)
  {
    hide MaskBits, PrefixMask, Value, MaskNumber;
    MaskValue(parts);
    if prefix <= 32 {
      PrefixMaskValue(prefix);
      if IsMask(parts, prefix) {
        ValueInjective(MaskBits(parts), PrefixMask(prefix));
      }
    }
  }

  datatype Scan = Scan(ones: nat, sawZero: bool)

  /** Count ones up to the first zero; a one after a zero stops the scan. */
  function ScanOf(bits: seq<bool>): Option<Scan> {
    if bits == [] then Some(Scan(0, false))
    else
      match ScanOf(bits[..|bits| - 1])
      case None => None
      case Some(before) =>
        if !bits[|bits| - 1] then Some(before.(sawZero := true))
        else if before.sawZero then None
        else Some(before.(ones := before.ones + 1))
  }

  lemma {:induction false} ScanMeaning(bits: seq<bool>, ones: nat)
    ensures ones <= |bits| && bits == Ones(ones) + Zeros(|bits| - ones) <==>
            ScanOf(bits) == Some(Scan(ones, ones < |bits|))
  {
    if bits == [] {
    } else {
      var init, last := bits[..|bits| - 1], bits[|bits| - 1];
      ScanSplit(bits, ones);
      ScanSawZero(init);
      if last {
        if ones == |bits| {
          ScanMeaning(init, ones - 1);
        } else {
          ScanMeaning(init, |init|);
        }
      } else {
        ScanMeaning(init, ones);
      }
    }
  }

  /** A zero was seen exactly when not all bits were ones. */
  lemma {:induction false} ScanSawZero(bits: seq<bool>)
    ensures ScanOf(bits).Some? ==>
              var scan := ScanOf(bits).value;
              scan.ones <= |bits| && scan.sawZero == (scan.ones < |bits|)
  {
    if bits != [] {
      ScanSawZero(bits[..|bits| - 1]);
    }
  }

  lemma ScanSplit(bits: seq<bool>, ones: nat)
    requires bits != []
    ensures var init, last := bits[..|bits| - 1], bits[|bits| - 1];
            ones <= |bits| ==>
              (bits == Ones(ones) + Zeros(|bits| - ones) <==>
               if last then ones == |bits| && init == Ones(|init|) + Zeros(0)
               else ones < |bits| && init == Ones(ones) + Zeros(|init| - ones))
  {
    SnocOf(bits);
    var init, last := bits[..|bits| - 1], bits[|bits| - 1];
    if ones < |bits| {
      assert Ones(ones) + Zeros(|bits| - ones) == Ones(ones) + Zeros(|init| - ones) + [false];
      assert (Ones(ones) + Zeros(|init| - ones) + [false])[..|init|] == Ones(ones) + Zeros(|init| - ones);
      assert (Ones(ones) + Zeros(|init| - ones) + [false])[|init|] == false;
    } else if ones == |bits| {
      assert Ones(ones) + Zeros(0) == Ones(|init|) + Zeros(0) + [true];
      assert (Ones(|init|) + Zeros(0) + [true])[..|init|] == Ones(|init|) + Zeros(0);
      assert (Ones(|init|) + Zeros(0) + [true])[|init|] == true;
    }
  }

  lemma {:induction false} ScanFailureSticks(bits: seq<bool>, more: seq<bool>)
    requires ScanOf(bits).None?
    ensures ScanOf(bits + more).None?
  {
    if more == [] {
      assert bits + more == bits;
    } else {
      assert (bits + more)[..|bits + more| - 1] == bits + more[..|more| - 1];
      ScanFailureSticks(bits, more[..|more| - 1]);
    }
  }

  lemma PrefixMaskBits(prefix: nat)
    requires prefix <= 32
    ensures PrefixMask(prefix) == Ones(prefix) + Zeros(32 - prefix)
  {
  }

  /** The mask text that the scan accepts, with the count it ends with, is the mask of that prefix. */
  lemma MaskIffScan(parts: MaskText, prefix: nat)
    requires AllOctets(parts) && |parts| == 4
    ensures IsMask(parts, prefix) <==>
            ScanOf(MaskBits(parts)).Some? && ScanOf(MaskBits(parts)).value.ones == prefix
  {
    hide ScanOf, MaskBits, PrefixMask, IsMask;
    var bits := MaskBits(parts);
    MaskIffBits(parts, prefix);
    ScanMeaning(bits, prefix);
    ScanSawZero(bits);
    if prefix <= 32 {
      PrefixMaskBits(prefix);
    }
  }

  lemma MaskBitsSnoc(parts: MaskText, i: nat)
    requires i < |parts| && AllOctets(parts[..i]) && parts[i].Some?
    ensures AllOctets(parts[..i + 1]) && MaskBits(parts[..i + 1]) == MaskBits(parts[..i]) + OctetBits(parts[i].value)
  {
    assert parts[..i + 1] == parts[..i] + [parts[i]];
    assert parts[..i + 1][..i] == parts[..i];
  }

  lemma MaskBitsPrefix(parts: MaskText, i: nat) returns (rest: seq<bool>)
    requires i <= |parts| && AllOctets(parts)
    ensures AllOctets(parts[..i]) && MaskBits(parts) == MaskBits(parts[..i]) + rest
    decreases |parts|
  {
    if i == |parts| {
      assert parts[..i] == parts;
      rest := [];
      AppendEmpty(MaskBits(parts), rest);
    } else {
      var init := parts[..|parts| - 1];
      assert init[..i] == parts[..i];
      var more := MaskBitsPrefix(init, i);
      rest := more + OctetBits(parts[|parts| - 1].value);
      AppendAssoc(MaskBits(parts[..i]), more, OctetBits(parts[|parts| - 1].value));
    }
  }

  /** The counters of the walk after some bits; the 8-bit one wraps at 256. */
  predicate Counted(bits: seq<bool>, prefix: nat, sawZero: bool) {
    && ScanOf(bits).Some? && sawZero == ScanOf(bits).value.sawZero && prefix == ScanOf(bits).value.ones % 256
  }

  lemma CountedStep(bits: seq<bool>, isOne: bool, prefix: nat, sawZero: bool)
    requires Counted(bits, prefix, sawZero)
    ensures !isOne ==> Counted(bits + [isOne], prefix, true)
    ensures isOne && !sawZero ==> Counted(bits + [isOne], (prefix + 1) % 256, false)
    ensures isOne && sawZero ==> ScanOf(bits + [isOne]).None?
  {
    assert (bits + [isOne])[..|bits|] == bits;
  }

  lemma CountedScan(bits: seq<bool>, prefix: nat, sawZero: bool)
    ensures Counted(bits, prefix, sawZero) ==> ScanOf(bits).Some?
  {
  }

  /** One octet of the walk, the most significant bit first. */
  method WalkOctet(octet: byte, startPrefix: nat, startSawZero: bool, ghost before: seq<bool>)
    returns (stop: bool, prefix: nat, sawZero: bool)
    requires Counted(before, startPrefix, startSawZero)
    ensures stop <==> ScanOf(before + OctetBits(octet)).None?
    ensures !stop ==> Counted(before + OctetBits(octet), prefix, sawZero)
  {
    hide BitAt, OctetBits, ScanOf, Counted;
    ghost var bits := OctetBits(octet);
    prefix, sawZero := startPrefix, startSawZero;
    AppendEmpty(before, bits[..0]);
    for bit := 8 downto 0
      invariant Counted(before + bits[..8 - bit], prefix, sawZero)
    {
      var isOne := BitAt(octet, bit);
      BitsOf(octet, bit);
      CountedStep(before + bits[..7 - bit], isOne, prefix, sawZero);
      NextBit(before, bits, 7 - bit);
      if isOne {
        if sawZero {
          ScanFailureSticks(before + bits[..8 - bit], bits[8 - bit..]);
          RestOfBits(before, bits, 8 - bit);
          return true, prefix, sawZero;
        }
        prefix := (prefix + 1) % 256;
      } else {
        sawZero := true;
      }
    }
    assert bits[..8] == bits;
    CountedScan(before + bits, prefix, sawZero);
    stop := false;
  }

  lemma NextBit(before: seq<bool>, bits: seq<bool>, k: nat)
    requires k < |bits|
    ensures before + bits[..k + 1] == before + bits[..k] + [bits[k]]
  {
  }

  lemma RestOfBits(before: seq<bool>, bits: seq<bool>, k: nat)
    requires k <= |bits|
    ensures before + bits[..k] + bits[k..] == before + bits
  {
    assert bits[..k] + bits[k..] == bits;
    AppendAssoc(before, bits[..k], bits[k..]);
  }

  /** The walk succeeds exactly for the text of a mask, and then with its prefix. */
  method Ipv4MaskToPrefix(parts: MaskText) returns (r: Option<nat>)
    ensures forall p: nat :: r == Some(p) <==> IsMask(parts, p)
  {
    hide ScanOf, OctetBits, IsMask, MaskBits, Counted;
    var prefix, sawZero, octets := 0, false, 0;
    StartOfScan(parts);
    for i := 0 to |parts|
      invariant octets == i && Walked(parts, i, prefix, sawZero)
    {
      octets := octets + 1;
      if parts[i].None? {
        NoOctetNoMask(parts, i);
        return None;
      }
      MaskBitsSnoc(parts, i);
      var stop;
      stop, prefix, sawZero := WalkOctet(parts[i].value, prefix, sawZero, MaskBits(parts[..i]));
      if stop {
        StoppedIsNoMask(parts, i + 1);
        return None;
      }
    }
    WalkedAll(parts, prefix, sawZero);
    r := if octets == 4 then Some(prefix) else None;
  }

  /** The copy of the walk in the network plan, which counts the parts at the end. */
  method PlanMaskToPrefix(parts: MaskText) returns (r: Option<nat>)
    ensures forall p: nat :: r == Some(p) <==> IsMask(parts, p)
  {
    hide ScanOf, OctetBits, IsMask, MaskBits, Counted;
    var prefix, sawZero := 0, false;
    StartOfScan(parts);
    for i := 0 to |parts|
      invariant Walked(parts, i, prefix, sawZero)
    {
      if parts[i].None? {
        NoOctetNoMask(parts, i);
        return None;
      }
      MaskBitsSnoc(parts, i);
      var stop;
      stop, prefix, sawZero := WalkOctet(parts[i].value, prefix, sawZero, MaskBits(parts[..i]));
      if stop {
        StoppedIsNoMask(parts, i + 1);
        return None;
      }
    }
    WalkedAll(parts, prefix, sawZero);
    r := if |parts| == 4 then Some(prefix) else None;
  }

  /** The walk got through the first octets. */
  predicate Walked(parts: MaskText, i: nat, prefix: nat, sawZero: bool) {
    i <= |parts| && AllOctets(parts[..i]) && Counted(MaskBits(parts[..i]), prefix, sawZero)
  }

  lemma StartOfScan(parts: MaskText)
    ensures Walked(parts, 0, 0, false)
  {
  }

  lemma NoOctetNoMask(parts: MaskText, i: nat)
    requires i < |parts| && parts[i].None?
    ensures forall p: nat :: !IsMask(parts, p)
  {
    assert parts[i] in parts;
  }

  lemma StoppedIsNoMask(parts: MaskText, i: nat)
    requires i <= |parts| && AllOctets(parts[..i]) && ScanOf(MaskBits(parts[..i])).None?
    ensures forall p: nat :: !IsMask(parts, p)
  {
    hide ScanOf, MaskBits, PrefixMask, IsMask;
    forall p: nat ensures !IsMask(parts, p) {
      if AllOctets(parts) && |parts| == 4 {
        var rest := MaskBitsPrefix(parts, i);
        ScanFailureSticks(MaskBits(parts[..i]), rest);
        MaskIffScan(parts, p);
      } else {
        MaskHasFourOctets(parts, p);
      }
    }
  }

  lemma MaskHasFourOctets(parts: MaskText, p: nat)
    ensures IsMask(parts, p) ==> |parts| == 4 && AllOctets(parts)
  {
  }

  lemma WalkedAll(parts: MaskText, prefix: nat, sawZero: bool)
    requires Walked(parts, |parts|, prefix, sawZero)
    ensures forall p: nat :: IsMask(parts, p) <==> |parts| == 4 && prefix == p
  {
    hide ScanOf, MaskBits, PrefixMask, IsMask;
    assert parts[..|parts|] == parts;
    ScanSawZero(MaskBits(parts));
    forall p: nat ensures IsMask(parts, p) <==> |parts| == 4 && prefix == p {
      MaskHasFourOctets(parts, p);
      if |parts| == 4 {
        MaskIffScan(parts, p);
      }
    }
  }

  // ---------- Networks ----------

  /** A network's address with the bits behind the prefix cleared, as a word. */
  datatype Ipv4Net = Ipv4Net(network: Word, prefix: nat)
  {
    predicate Contains(addr: Ipv4Addr)
      requires prefix <= 32
    {
      And(WordOf(addr), PrefixMask(prefix)) == network
    }
  }

  function NewNet(network: Ipv4Addr, prefix: nat): (net: Ipv4Net)
    ensures net.prefix <= 32
  {
    var p := if prefix <= 32 then prefix else 32;
    Ipv4Net(And(WordOf(network), PrefixMask(p)), p)
  }

  /** A network contains the addresses that agree with its own in the first bits, as many as the prefix says. */
  lemma ContainsIff(network: Ipv4Addr, prefix: nat, x: Ipv4Addr)
    requires prefix <= 32
    ensures NewNet(network, prefix).Contains(x) <==> WordOf(x)[..prefix] == WordOf(network)[..prefix]
    ensures NewNet(network, prefix).Contains(x) <==>
            And(WordOf(x), PrefixMask(prefix)) == And(WordOf(network), PrefixMask(prefix))
  {
    hide WordOf;
    PrefixMaskBits(prefix);
    var a, b, m := WordOf(x), WordOf(network), PrefixMask(prefix);
    if a[..prefix] == b[..prefix] {
      forall i | 0 <= i < 32 ensures And(a, m)[i] == And(b, m)[i] {
        if i < prefix {
          assert a[i] == a[..prefix][i] && b[i] == b[..prefix][i];
        }
      }
      assert And(a, m) == And(b, m);
    }
    if And(a, m) == And(b, m) {
      forall i | 0 <= i < prefix ensures a[i] == b[i] {
        assert m[i] && And(a, m)[i] == a[i] && And(b, m)[i] == b[i];
      }
    }
  }

  /** Dropping the last bits divides by a power of two. */
  lemma FirstBitsValue(bits: seq<bool>, n: nat)
    requires n <= |bits|
    ensures Value(bits[..n]) == Value(bits) / Pow2(|bits| - n)
  {
    hide Value;
    ValueConcat(bits[..n], bits[n..]);
    assert bits == bits[..n] + bits[n..];
    ValueBound(bits[n..]);
    Quotient(Value(bits[..n]), Pow2(|bits| - n), Value(bits[n..]));
  }

  lemma Quotient(x: nat, y: nat, z: nat)
    requires z < y
    ensures (x * y + z) / y == x
  {
    var whole := x * y + z;
    SameQuotient(x, whole / y, y, z, whole % y);
  }

  lemma SameQuotient(x: nat, q: nat, y: nat, z: nat, r: nat)
    requires x * y + z == q * y + r && z < y && r < y
    ensures x == q
  {
    if q > x {
      LaterBlock(x, q, y);
    } else if q < x {
      LaterBlock(q, x, y);
    }
  }

  lemma LaterBlock(x: nat, q: nat, y: nat)
    requires q > x
    ensures q * y >= x * y + y
  {
    assert q * y == x * y + (q - x) * y;
    AtLeastOne(q - x, y);
  }

  lemma AtLeastOne(n: nat, y: nat)
    requires n > 0
    ensures n * y >= y
  {
  }

  /** In numbers: a network contains the addresses of its own block of 2 to the number of remaining bits. */
  lemma ContainsIffSameBlock(network: Ipv4Addr, prefix: nat, x: Ipv4Addr)
    requires prefix <= 32
    ensures NewNet(network, prefix).Contains(x) <==>
            Number(x) / Pow2(32 - prefix) == Number(network) / Pow2(32 - prefix)
  {
    hide WordOf, Value, Number, NewNet, Ipv4Net.Contains;
    var a, b := WordOf(x), WordOf(network);
    ContainsIff(network, prefix, x);
    WordValue(x);
    WordValue(network);
    FirstBitsValue(a, prefix);
    FirstBitsValue(b, prefix);
    if Value(a[..prefix]) == Value(b[..prefix]) {
      ValueInjective(a[..prefix], b[..prefix]);
    }
  }

  // ---------- The route table ----------

  /** A split route as configured: its destination, if that is an address, and the text of its mask. */
  datatype SplitRoute = SplitRoute(destination: Option<Ipv4Addr>, mask: MaskText)

  /** The address is in the block of the destination that the mask cuts out. */
  ghost predicate Admits(route: SplitRoute, x: Ipv4Addr) {
    route.destination.Some? &&
    exists p: nat :: IsMask(route.mask, p)
                     && Number(x) / Pow2(32 - p) == Number(route.destination.value) / Pow2(32 - p)
  }

  predicate AnyContains(nets: seq<Ipv4Net>, x: Ipv4Addr)
    requires forall net :: net in nets ==> net.prefix <= 32
  {
    exists i :: 0 <= i < |nets| && nets[i].Contains(x)
  }

  lemma AnyContainsSnoc(nets: seq<Ipv4Net>, last: Ipv4Net, x: Ipv4Addr)
    requires (forall net :: net in nets ==> net.prefix <= 32) && last.prefix <= 32
    ensures AnyContains(nets + [last], x) <==> AnyContains(nets, x) || last.Contains(x)
  {
    hide Ipv4Net.Contains;
    var all := nets + [last];
    assert all[|nets|] == last;
    assert forall i :: 0 <= i < |nets| ==> all[i] == nets[i];
  }

  ghost predicate AnyAdmits(splitRoutes: seq<SplitRoute>, x: Ipv4Addr) {
    exists j :: 0 <= j < |splitRoutes| && Admits(splitRoutes[j], x)
  }

  lemma AnyAdmitsSnoc(splitRoutes: seq<SplitRoute>, i: nat, x: Ipv4Addr)
    requires i < |splitRoutes|
    ensures AnyAdmits(splitRoutes[..i + 1], x) <==> AnyAdmits(splitRoutes[..i], x) || Admits(splitRoutes[i], x)
  {
    hide Admits;
    var before, all := splitRoutes[..i], splitRoutes[..i + 1];
    assert all[i] == splitRoutes[i] && forall j :: 0 <= j < i ==> all[j] == before[j];
  }

  method NetOfRoute(route: SplitRoute) returns (net: Option<Ipv4Net>)
    ensures net.Some? ==> net.value.prefix <= 32 && forall x :: net.value.Contains(x) <==> Admits(route, x)
    ensures net.None? ==> forall x :: !Admits(route, x)
  {
    hide IsMask, Number, Ipv4Net.Contains;
    if route.destination.None? {
      return None;
    }
    var prefix := Ipv4MaskToPrefix(route.mask);
    if prefix.None? {
      assert forall p: nat :: !IsMask(route.mask, p);
      return None;
    }
    assert IsMask(route.mask, prefix.value);
    assert forall p: nat :: IsMask(route.mask, p) ==> p == prefix.value;
    MaskIsShort(route.mask, prefix.value);
    net := Some(NewNet(route.destination.value, prefix.value));
    forall x ensures net.value.Contains(x) <==> Admits(route, x) {
      ContainsIffSameBlock(route.destination.value, prefix.value, x);
    }
  }

  lemma MaskIsShort(parts: MaskText, p: nat)
    requires IsMask(parts, p)
    ensures p <= 32
  {
  }

  /** The two halves together, like the default route alone, contain every address. */
  lemma HalvesAreEverything(x: Ipv4Addr)
    ensures AnyContains([NewNet(Ipv4Addr(0, 0, 0, 0), 1), NewNet(Ipv4Addr(128, 0, 0, 0), 1)], x)
    ensures AnyContains([NewNet(Ipv4Addr(0, 0, 0, 0), 0)], x)
  {
    hide WordOf, NewNet, Ipv4Net.Contains;
    var low, high, whole := Ipv4Addr(0, 0, 0, 0), Ipv4Addr(128, 0, 0, 0), NewNet(Ipv4Addr(0, 0, 0, 0), 0);
    FirstBits();
    ContainsIff(low, 1, x);
    ContainsIff(high, 1, x);
    ContainsIff(low, 0, x);
    assert WordOf(x)[..1] == [WordOf(x)[0]] && WordOf(low)[..1] == [false] && WordOf(high)[..1] == [true];
    assert WordOf(x)[..0] == WordOf(low)[..0];
    var halves := [NewNet(low, 1), NewNet(high, 1)];
    assert halves[0] == NewNet(low, 1) && halves[1] == NewNet(high, 1);
    assert [whole][0].Contains(x);
  }

  lemma FirstBits()
    ensures !WordOf(Ipv4Addr(0, 0, 0, 0))[0] && WordOf(Ipv4Addr(128, 0, 0, 0))[0]
  {
    BitsOf(0, 7);
    BitsOf(128, 7);
  }

  class ProxyRouteTable {
    var routes: seq<Ipv4Net>

    ghost predicate Valid()
      reads this
    {
      forall net :: net in routes ==> net.prefix <= 32
    }

    predicate CanRoute(x: Ipv4Addr)
      requires Valid()
      reads this
    {
      AnyContains(routes, x)
    }

    /**
     * The table admits nothing without routes, what some well-formed split route admits when there are any, and
     * everything otherwise, whether by the default route or by the two halves of the address space.
     */
    constructor FromConfig(setRoutes: bool, splitRoutes: seq<SplitRoute>, halfInternetRoutes: bool)
      ensures Valid()
      ensures forall x :: CanRoute(x) <==> setRoutes && (splitRoutes == [] || AnyAdmits(splitRoutes, x))
    {
      hide *;
      var nets: seq<Ipv4Net> := [];
      if setRoutes {
        if splitRoutes != [] {
          nets := NetsOfRoutes(splitRoutes);
        } else if halfInternetRoutes {
          nets := [NewNet(Ipv4Addr(0, 0, 0, 0), 1), NewNet(Ipv4Addr(128, 0, 0, 0), 1)];
        } else {
          nets := [NewNet(Ipv4Addr(0, 0, 0, 0), 0)];
        }
      }
      forall x ensures AnyContains(nets, x) <==> setRoutes && (splitRoutes == [] || AnyAdmits(splitRoutes, x)) {
        HalvesAreEverything(x);
        NothingContains(x);
      }
      routes := nets;
      new;
      TableOf();
    }

    lemma TableOf()
      ensures Valid() <==> forall net :: net in routes ==> net.prefix <= 32
      ensures Valid() ==> forall x :: CanRoute(x) <==> AnyContains(routes, x)
    {
    }
  }

  lemma NothingContains(x: Ipv4Addr)
    ensures !AnyContains([], x)
  {
  }

  /** The loop over the split routes; those that are not well formed are passed over. */
  method NetsOfRoutes(splitRoutes: seq<SplitRoute>) returns (nets: seq<Ipv4Net>)
    ensures forall net :: net in nets ==> net.prefix <= 32
    ensures forall x :: AnyContains(nets, x) <==> AnyAdmits(splitRoutes, x)
  {
    hide Admits, Ipv4Net.Contains, AnyContains, AnyAdmits;
    nets := [];
    NothingAdmits(splitRoutes);
    for i := 0 to |splitRoutes|
      invariant forall net :: net in nets ==> net.prefix <= 32
      invariant forall x :: AnyContains(nets, x) <==> AnyAdmits(splitRoutes[..i], x)
    {
      var net := NetOfRoute(splitRoutes[i]);
      forall x ensures AnyAdmits(splitRoutes[..i + 1], x) <==> AnyContains(nets, x) || Admits(splitRoutes[i], x) {
        AnyAdmitsSnoc(splitRoutes, i, x);
      }
      if net.Some? {
        forall x ensures AnyContains(nets + [net.value], x) <==> AnyContains(nets, x) || net.value.Contains(x) {
          AnyContainsSnoc(nets, net.value, x);
        }
        nets := nets + [net.value];
      }
    }
    assert splitRoutes[..|splitRoutes|] == splitRoutes;
  }

  lemma NothingAdmits(splitRoutes: seq<SplitRoute>)
    ensures forall x :: !AnyAdmits(splitRoutes[..0], x) && !AnyContains([], x)
  {
  }
}
