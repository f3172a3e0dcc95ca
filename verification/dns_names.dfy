/** Domain names on the wire, RFC 1035 sections 3.1 and 4.1.4: encoding a dotted name and skipping an encoded one. */
module DnsNames {
  import opened Bytes

  const DOT: byte := 0x2e
  const MAX_LABEL: nat := 63
  const MAX_JUMPS: nat := 128

  // ---------- A text at a place in another ----------

  predicate At<T(==)>(m: seq<T>, o: nat, w: seq<T>) {
    o + |w| <= |m| && m[o..o + |w|] == w
  }

  lemma AtSplit<T>(m: seq<T>, o: nat, a: seq<T>, b: seq<T>)
    ensures At(m, o, a + b) <==> At(m, o, a) && At(m, o + |a|, b)
  {
    if o + |a| + |b| <= |m| {
      var w := m[o..o + |a| + |b|];
      assert w[..|a|] == m[o..o + |a|] && w[|a|..] == m[o + |a|..o + |a| + |b|];
      assert w == w[..|a|] + w[|a|..];
      if w == a + b {
        assert w[..|a|] == a && w[|a|..] == b;
      }
    }
  }

  lemma AtElement<T>(m: seq<T>, o: nat, w: seq<T>, i: nat)
    requires At(m, o, w) && i < |w|
    ensures m[o + i] == w[i]
  {
    assert m[o..o + |w|][i] == w[i];
  }

  lemma ConsSlice<T>(m: seq<T>, o: nat, end: nat)
    requires o < end <= |m|
    ensures m[o..end] == [m[o]] + m[o + 1..end]
  {
  }

  // ---------- Length bytes ----------

  predicate IsPointerByte(b: byte) {
    b & 0xc0 == 0xc0
  }

  predicate HasReservedBits(b: byte) {
    b & 0xc0 != 0
  }

  /** In numbers: a pointer starts at 192, a length is below 64, and what is between them is reserved. */
  lemma LengthBytes(b: byte)
    ensures IsPointerByte(b) <==> b as int >= 192
    ensures HasReservedBits(b) <==> b as int >= 64
  {
  }

  lemma {:induction false} SmallByte(n: nat)
    requires n <= MAX_LABEL
    ensures (n as byte) as int == n && !IsPointerByte(n as byte) && !HasReservedBits(n as byte)
  {
    ByteOfInt(n);
    SmallByteBound(n);
    SmallByteBits(n as byte);
  }

  lemma SmallByteBits(b: byte)
    requires b < 64
    ensures !IsPointerByte(b) && !HasReservedBits(b)
  {
  }

  lemma {:induction false} SmallByteBound(n: nat)
    requires n <= MAX_LABEL
    ensures n as byte < 64
  {
    if n > 0 {
      SmallByteBound(n - 1);
      ByteOfInt(n - 1);
      var b := (n - 1) as byte;
      IncrementByte(b);
      ByteOfIntUnique(n, b + 1);
      NextSmall(b);
    }
  }

  lemma NextSmall(b: byte)
    requires b < 64 && b as int < 63
    ensures b + 1 < 64
  {
  }

  function LengthByte(n: nat): (b: byte)
    requires n <= MAX_LABEL
    ensures b as int == n && !IsPointerByte(b) && !HasReservedBits(b)
  {
    SmallByte(n);
    n as byte
  }

  lemma LengthOfPlainByte(b: byte)
    requires !HasReservedBits(b)
    ensures b as int <= MAX_LABEL && LengthByte(b as int) == b
  {
    assert b < 64;
    BelowSixtyFour(b);
    ByteOfIntUnique(b as int, b);
  }

  lemma BelowSixtyFour(b: byte)
    requires b < 64
    ensures b as int < 64
  {
  }

  lemma ZeroByteIff(b: byte)
    ensures b == 0 <==> b as int == 0
  {
    if b as int == 0 {
      ByteOfIntUnique(0, b);
    }
  }

  // ---------- The grammar of a name ----------

  type Label = seq<byte>

  datatype NameEnd = Root | Pointer(hi: byte, lo: byte)

  /** Labels, then the root or a pointer to the rest of the name elsewhere in the message. */
  datatype Name = Name(labels: seq<Label>, end: NameEnd)

  predicate GoodLabel(part: Label) {
    0 < |part| <= MAX_LABEL
  }

  predicate GoodLabels(labels: seq<Label>) {
    forall l :: l in labels ==> GoodLabel(l)
  }

  predicate WellFormed(name: Name) {
    GoodLabels(name.labels) && (name.end.Pointer? ==> IsPointerByte(name.end.hi))
  }

  function LabelWire(part: Label): (w: seq<byte>)
    requires GoodLabel(part)
    ensures |w| == 1 + |part|
  {
    [LengthByte(|part|)] + part
  }

  function LabelsWire(labels: seq<Label>): seq<byte>
    requires GoodLabels(labels)
  {
    if labels == [] then [] else LabelWire(labels[0]) + LabelsWire(labels[1..])
  }

  function EndWire(end: NameEnd): seq<byte> {
    match end
    case Root => [0]
    case Pointer(hi, lo) => [hi, lo]
  }

  function NameWire(name: Name): seq<byte>
    requires WellFormed(name)
  {
    LabelsWire(name.labels) + EndWire(name.end)
  }

  // ---------- Skipping ----------

  function SkipFrom(message: seq<byte>, offset: nat, jumps: nat): Result<nat>
    decreases |message| - offset
  {
    if offset >= |message| then Err(Network("truncated DNS name"))
    else
      var len := message[offset];
      if IsPointerByte(len) then
        if offset + 1 >= |message| then Err(Network("truncated DNS name pointer")) else Ok(offset + 2)
      else if len == 0 then Ok(offset + 1)
      else if HasReservedBits(len) then Err(Network("unsupported DNS label encoding"))
      else if jumps + 1 > MAX_JUMPS then Err(Network("DNS name too deep"))
      else SkipFrom(message, offset + 1 + len as int, jumps + 1)
  }

  method SkipName(message: seq<byte>, start: nat) returns (r: Result<nat>)
    ensures r == SkipFrom(message, start, 0)
  {
    hide IsPointerByte, HasReservedBits;
    var offset, jumps := start, 0;
    while true
      invariant SkipFrom(message, offset, jumps) == SkipFrom(message, start, 0)
      decreases |message| - offset
    {
      if offset >= |message| {
        return Err(Network("truncated DNS name"));
      }
      var len := message[offset];
      if IsPointerByte(len) {
        if offset + 1 >= |message| {
          return Err(Network("truncated DNS name pointer"));
        }
        return Ok(offset + 2);
      }
      if len == 0 {
        return Ok(offset + 1);
      }
      if HasReservedBits(len) {
        return Err(Network("unsupported DNS label encoding"));
      }
      offset := offset + 1 + len as int;
      jumps := jumps + 1;
      if jumps > MAX_JUMPS {
        return Err(Network("DNS name too deep"));
      }
    }
  }

  lemma ZeroIsPlain()
    ensures !IsPointerByte(0) && !HasReservedBits(0)
  {
  }

  lemma NameWireCons(part: Label, rest: Name)
    requires GoodLabel(part) && WellFormed(rest)
    ensures WellFormed(Name([part] + rest.labels, rest.end))
    ensures NameWire(Name([part] + rest.labels, rest.end)) == LabelWire(part) + NameWire(rest)
  {
    hide IsPointerByte, LabelWire;
    var name := Name([part] + rest.labels, rest.end);
    assert name.labels[1..] == rest.labels;
    AppendAssoc(LabelWire(part), LabelsWire(rest.labels), EndWire(rest.end));
  }

  lemma SkipsLabel(message: seq<byte>, offset: nat, part: Label, jumps: nat)
    requires GoodLabel(part) && At(message, offset, LabelWire(part))
    ensures SkipFrom(message, offset, jumps) ==
            if jumps + 1 > MAX_JUMPS then Err(Network("DNS name too deep"))
            else SkipFrom(message, offset + |LabelWire(part)|, jumps + 1)
  {
    hide IsPointerByte, HasReservedBits, LengthByte;
    AtElement(message, offset, LabelWire(part), 0);
    assert message[offset] == LengthByte(|part|);
    ByteOfIntUnique(0, 0);
  }

  lemma SkipsEnd(message: seq<byte>, offset: nat, end: NameEnd, jumps: nat)
    requires (end.Pointer? ==> IsPointerByte(end.hi)) && At(message, offset, EndWire(end))
    ensures SkipFrom(message, offset, jumps) == Ok(offset + |EndWire(end)|)
  {
    hide IsPointerByte, HasReservedBits;
    AtElement(message, offset, EndWire(end), 0);
    ZeroIsPlain();
  }

  /** A name in the message is skipped exactly when it has at most 128 labels, and then to its very end. */
  lemma {:induction false} SkipsWholeName(message: seq<byte>, offset: nat, name: Name, jumps: nat)
    requires WellFormed(name) && At(message, offset, NameWire(name)) && jumps <= MAX_JUMPS
    ensures SkipFrom(message, offset, jumps) ==
            if jumps + |name.labels| <= MAX_JUMPS then Ok(offset + |NameWire(name)|)
            else Err(Network("DNS name too deep"))
    decreases |name.labels|
  {
    hide IsPointerByte, SkipFrom, LabelWire, EndWire, At;
    if name.labels == [] {
      assert NameWire(name) == EndWire(name.end);
      SkipsEnd(message, offset, name.end, jumps);
    } else {
      hide NameWire;
      var part, rest := name.labels[0], Name(name.labels[1..], name.end);
      assert name == Name([part] + rest.labels, rest.end);
      NameWireCons(part, rest);
      AtSplit(message, offset, LabelWire(part), NameWire(rest));
      SkipsLabel(message, offset, part, jumps);
      if jumps + 1 <= MAX_JUMPS {
        SkipsWholeName(message, offset + |LabelWire(part)|, rest, jumps + 1);
      }
    }
  }

  lemma SkippedEnd(message: seq<byte>, offset: nat, jumps: nat) returns (end: NameEnd)
    requires SkipFrom(message, offset, jumps).Ok?
    requires IsPointerByte(message[offset]) || message[offset] == 0
    ensures (end.Pointer? ==> IsPointerByte(end.hi)) && At(message, offset, EndWire(end))
    ensures SkipFrom(message, offset, jumps) == Ok(offset + |EndWire(end)|)
  {
    hide IsPointerByte, HasReservedBits;
    if IsPointerByte(message[offset]) {
      end := Pointer(message[offset], message[offset + 1]);
      assert message[offset..offset + 2] == [message[offset], message[offset + 1]];
    } else {
      end := Root;
      assert message[offset..offset + 1] == [message[offset]];
    }
  }

  lemma SkippedOver(message: seq<byte>, offset: nat, jumps: nat)
    requires SkipFrom(message, offset, jumps).Ok? && offset < |message|
    requires !IsPointerByte(message[offset]) && message[offset] != 0
    ensures !HasReservedBits(message[offset]) && jumps < MAX_JUMPS
    ensures
      var next := offset + 1 + message[offset] as int;
      next <= |message| && SkipFrom(message, offset, jumps) == SkipFrom(message, next, jumps + 1)
  {
    hide IsPointerByte, HasReservedBits;
  }

  lemma SkippedLabel(message: seq<byte>, offset: nat, jumps: nat) returns (part: Label)
    requires SkipFrom(message, offset, jumps).Ok? && offset < |message|
    requires !IsPointerByte(message[offset]) && message[offset] != 0
    ensures GoodLabel(part) && jumps < MAX_JUMPS && SkipFrom(message, offset + |LabelWire(part)|, jumps + 1).Ok?
    ensures At(message, offset, LabelWire(part))
    ensures SkipFrom(message, offset, jumps) == SkipFrom(message, offset + |LabelWire(part)|, jumps + 1)
  {
    hide IsPointerByte, HasReservedBits, LengthByte, SkipFrom;
    SkippedOver(message, offset, jumps);
    var len := message[offset];
    LengthOfPlainByte(len);
    ZeroByteIff(len);
    part := message[offset + 1..offset + 1 + len as int];
    ConsSlice(message, offset, offset + 1 + len as int);
  }

  lemma SkippedInside(message: seq<byte>, offset: nat, jumps: nat)
    requires SkipFrom(message, offset, jumps).Ok?
    ensures offset < |message|
  {
  }

  lemma NameWireEnd(end: NameEnd)
    requires end.Pointer? ==> IsPointerByte(end.hi)
    ensures WellFormed(Name([], end)) && NameWire(Name([], end)) == EndWire(end)
  {
    hide IsPointerByte;
  }

  /** And nothing is skipped that is not a name of at most 128 labels. */
  lemma {:induction false} SkippedIsName(message: seq<byte>, offset: nat, jumps: nat) returns (name: Name)
    requires SkipFrom(message, offset, jumps).Ok? && jumps <= MAX_JUMPS
    ensures WellFormed(name) && jumps + |name.labels| <= MAX_JUMPS && At(message, offset, NameWire(name))
    ensures SkipFrom(message, offset, jumps) == Ok(offset + |NameWire(name)|)
    decreases |message| - offset
  {
    hide IsPointerByte, SkipFrom, LabelWire, EndWire, At, NameWire, WellFormed;
    SkippedInside(message, offset, jumps);
    if IsPointerByte(message[offset]) || message[offset] == 0 {
      var end := SkippedEnd(message, offset, jumps);
      name := Name([], end);
      NameWireEnd(end);
    } else {
      var part := SkippedLabel(message, offset, jumps);
      var rest := SkippedIsName(message, offset + |LabelWire(part)|, jumps + 1);
      name := Name([part] + rest.labels, rest.end);
      NameWireCons(part, rest);
      AtSplit(message, offset, LabelWire(part), NameWire(rest));
    }
  }

  // ---------- Encoding a dotted name ----------

  /** Without the dots it ends in. */
  function Trimmed(name: seq<byte>): (t: seq<byte>)
    ensures t == [] || t[|t| - 1] != DOT
    ensures t <= name
  {
    if name != [] && name[|name| - 1] == DOT then Trimmed(name[..|name| - 1]) else name
  }

  /** Only dots are cut off. */
  lemma {:induction false} OnlyDotsAreTrimmed(name: seq<byte>)
    ensures forall i :: |Trimmed(name)| <= i < |name| ==> name[i] == DOT
  {
    if name != [] && name[|name| - 1] == DOT {
      OnlyDotsAreTrimmed(name[..|name| - 1]);
    }
  }

  /** The parts between the dots; there is at least one, maybe empty. */
  function Split(s: seq<byte>): (parts: seq<Label>)
    ensures parts != []
  {
    if s == [] then [[]]
    else
      var before, c := Split(s[..|s| - 1]), s[|s| - 1];
      if c == DOT then before + [[]]
      else before[..|before| - 1] + [before[|before| - 1] + [c]]
  }

  function Join(parts: seq<Label>): seq<byte>
    requires parts != []
  {
    if |parts| == 1 then parts[0] else Join(parts[..|parts| - 1]) + [DOT] + parts[|parts| - 1]
  }

  /** The labels of a dotted name; the root has none. */
  function LabelsOf(name: seq<byte>): seq<Label> {
    if Trimmed(name) == [] then [] else Split(Trimmed(name))
  }

  /** The parts have no dots, and with dots between them they are the name again. */
  lemma {:induction false} SplitJoins(s: seq<byte>)
    ensures Join(Split(s)) == s
    ensures forall p :: p in Split(s) ==> DOT !in p
  {
    if s != [] {
      var before, c := Split(s[..|s| - 1]), s[|s| - 1];
      SplitJoins(s[..|s| - 1]);
      SnocOf(s);
      SnocOf(before);
      var last := before[|before| - 1];
      if c == DOT {
        assert Split(s)[..|before|] == before;
        AppendEmpty(Join(before) + [DOT], Split(s)[|before|]);
      } else {
        JoinExtend(before, [c]);
        assert forall p :: p in Split(s) ==> p in before || p == last + [c];
      }
    }
  }

  lemma JoinExtend(parts: seq<Label>, more: seq<byte>)
    requires parts != []
    ensures Join(parts[..|parts| - 1] + [parts[|parts| - 1] + more]) == Join(parts) + more
  {
    var init, last := parts[..|parts| - 1], parts[|parts| - 1];
    var longer := init + [last + more];
    assert longer[..|longer| - 1] == init && longer[|longer| - 1] == last + more;
    if init != [] {
      AppendAssoc(Join(init) + [DOT], last, more);
    }
  }

  function EncodedName(name: seq<byte>): Result<seq<byte>> {
    if GoodLabels(LabelsOf(name)) then Ok(NameWire(Name(LabelsOf(name), Root))) else Err(Network("bad DNS label"))
  }

  lemma {:induction false} LabelsWireSnoc(labels: seq<Label>, last: Label)
    requires GoodLabels(labels) && GoodLabel(last)
    ensures GoodLabels(labels + [last]) && LabelsWire(labels + [last]) == LabelsWire(labels) + LabelWire(last)
  {
    hide LabelWire;
    if labels == [] {
      assert [last][1..] == [];
      AppendEmpty(LabelWire(last), LabelsWire([]));
    } else {
      assert (labels + [last])[1..] == labels[1..] + [last];
      LabelsWireSnoc(labels[1..], last);
      AppendAssoc(LabelWire(labels[0]), LabelsWire(labels[1..]), LabelWire(last));
    }
  }

  method EncodeName(name: seq<byte>, out: seq<byte>) returns (r: Result<()>, written: seq<byte>)
    ensures r.Ok? <==> EncodedName(name).Ok?
    ensures r.Ok? ==> written == out + EncodedName(name).value
    ensures r.Err? ==> r.error == EncodedName(name).error
  {
    hide LabelWire, Trimmed, Split;
    written := out;
    var trimmed := Trimmed(name);
    if trimmed == [] {
      return Ok(()), written + [0];
    }
    var labels := Split(trimmed);
    AppendEmpty(out, LabelsWire([]));
    for i := 0 to |labels|
      invariant GoodLabels(labels[..i]) && written == out + LabelsWire(labels[..i])
    {
      var part := labels[i];
      assert part in labels;
      if part == [] || |part| > MAX_LABEL {
        return Err(Network("bad DNS label")), written;
      }
      assert labels[..i + 1] == labels[..i] + [part];
      LabelsWireSnoc(labels[..i], part);
      AppendAssoc(out, LabelsWire(labels[..i]), LabelWire(part));
      written := written + LabelWire(part);
    }
    assert labels[..|labels|] == labels;
    AppendAssoc(out, LabelsWire(labels), [0]);
    return Ok(()), written + [0];
  }

  /** An encoded name is skipped to its very end exactly when it has at most 128 labels. */
  lemma EncodedNameIsSkipped(name: seq<byte>, message: seq<byte>, offset: nat)
    requires EncodedName(name).Ok? && At(message, offset, EncodedName(name).value)
    ensures SkipFrom(message, offset, 0) ==
            if |LabelsOf(name)| <= 128 then Ok(offset + |EncodedName(name).value|)
            else Err(Network("DNS name too deep"))
  {
    hide LabelsOf, SkipFrom, At, NameWire;
    SkipsWholeName(message, offset, Name(LabelsOf(name), Root), 0);
  }

  /** The encoding gives the labels away: two lists with the same encoding are the same. */
  lemma {:induction false} EncodingIsInjective(a: seq<Label>, b: seq<Label>)
    requires GoodLabels(a) && GoodLabels(b) && LabelsWire(a) + [0] == LabelsWire(b) + [0]
    ensures a == b
  {
    hide LengthByte, IsPointerByte, HasReservedBits;
    if a == [] || b == [] {
      FirstOfWire(a);
      FirstOfWire(b);
    } else {
      FirstOfWire(a);
      FirstOfWire(b);
      var wa, wb := LabelWire(a[0]), LabelWire(b[0]);
      assert |a[0]| == |b[0]|;
      AppendAssoc(wa, LabelsWire(a[1..]), [0]);
      AppendAssoc(wb, LabelsWire(b[1..]), [0]);
      SameHeads(wa, LabelsWire(a[1..]) + [0], wb, LabelsWire(b[1..]) + [0]);
      assert a[0] == wa[1..] == wb[1..] == b[0];
      EncodingIsInjective(a[1..], b[1..]);
      assert a == [a[0]] + a[1..] && b == [b[0]] + b[1..];
    }
  }

  lemma FirstOfWire(labels: seq<Label>)
    requires GoodLabels(labels)
    ensures labels == [] ==> (LabelsWire(labels) + [0])[0] as int == 0
    ensures labels != [] ==> (LabelsWire(labels) + [0])[0] as int == |labels[0]| > 0
  {
    hide LengthByte, IsPointerByte, HasReservedBits;
    ZeroByteIff(0);
    if labels != [] {
      assert labels[0] in labels;
      assert LabelWire(labels[0])[0] == LengthByte(|labels[0]|);
      assert (LabelsWire(labels) + [0])[0] == LabelWire(labels[0])[0];
    }
  }

  lemma SameHeads<T>(a: seq<T>, restA: seq<T>, b: seq<T>, restB: seq<T>)
    requires |a| == |b| && a + restA == b + restB
    ensures a == b && restA == restB
  {
    assert a == (a + restA)[..|a|] && b == (b + restB)[..|b|];
    assert restA == (a + restA)[|a|..] && restB == (b + restB)[|b|..];
  }

  /** The query for a name asks for that name and no other, up to the dots it ends in. */
  lemma SameEncodingSameName(name: seq<byte>, other: seq<byte>)
    requires EncodedName(name).Ok? && EncodedName(name) == EncodedName(other)
    ensures Trimmed(name) == Trimmed(other)
  {
    hide LabelWire, Split, Join;
    EncodingIsInjective(LabelsOf(name), LabelsOf(other));
    SplitJoins(Trimmed(name));
    SplitJoins(Trimmed(other));
  }
}
