/** Control packets, the option list of IPCP, and the two walkers that look for the IP-Address option. */
module IpcpOptions {
  import opened Bytes

  datatype Ipv4Addr = Ipv4Addr(a: byte, b: byte, c: byte, d: byte)

  const UNSPECIFIED := Ipv4Addr(0, 0, 0, 0)
  const IP_ADDRESS: byte := 3
  const PPP_CONTROL_HEADER_LEN: nat := 4

  function Octets(ip: Ipv4Addr): (s: seq<byte>)
    ensures |s| == 4
  {
    [ip.a, ip.b, ip.c, ip.d]
  }

  // ---------- Reference: the list of options ----------

  datatype ConfigOption = ConfigOption(kind: byte, value: seq<byte>)

  /** The options up to the end of the list or the first malformed one. */
  function OptionList(s: seq<byte>): seq<ConfigOption> {
    if |s| < 2 || s[1] as int < 2 || s[1] as int > |s| then []
    else [ConfigOption(s[0], s[2..s[1] as int])] + OptionList(s[s[1] as int..])
  }

  predicate IsAddress(o: ConfigOption) {
    o.kind == IP_ADDRESS && |o.value| == 4
  }

  function FirstAddress(list: seq<ConfigOption>): Option<Ipv4Addr> {
    if list == [] then None
    else if IsAddress(list[0]) then
      Some(Ipv4Addr(list[0].value[0], list[0].value[1], list[0].value[2], list[0].value[3]))
    else FirstAddress(list[1..])
  }

  function AddressIn(s: seq<byte>): Option<Ipv4Addr> {
    FirstAddress(OptionList(s))
  }

  /** What the reference returns: the address of the first address option, if there is one. */
  lemma {:induction false} FirstAddressIsFirst(list: seq<ConfigOption>)
    ensures FirstAddress(list).None? <==> forall o :: o in list ==> !IsAddress(o)
    ensures FirstAddress(list).Some? ==>
              exists i :: 0 <= i < |list| && IsAddress(list[i]) && list[i].value == Octets(FirstAddress(list).value)
                          && forall j :: 0 <= j < i ==> !IsAddress(list[j])
  {
    if list != [] {
      if IsAddress(list[0]) {
        assert list[0].value == Octets(FirstAddress(list).value);
      } else {
        FirstAddressIsFirst(list[1..]);
        assert forall o :: o in list ==> o == list[0] || o in list[1..];
        if FirstAddress(list).Some? {
          var i :| 0 <= i < |list[1..]| && IsAddress(list[1..][i])
                   && list[1..][i].value == Octets(FirstAddress(list).value)
                   && forall j :: 0 <= j < i ==> !IsAddress(list[1..][j]);
          assert list[i + 1] == list[1..][i];
          forall j | 0 <= j < i + 1 ensures !IsAddress(list[j]) {
            if j > 0 {
              assert list[j] == list[1..][j - 1];
            }
          }
        }
      }
    }
  }

  lemma ListStep(s: seq<byte>)
    ensures |s| < 2 ==> AddressIn(s) == None
    ensures |s| >= 2 ==>
              var n := s[1] as int;
              if n < 2 || n > |s| then AddressIn(s) == None
              else if s[0] == IP_ADDRESS && n == 6 then AddressIn(s) == Some(Ipv4Addr(s[2], s[3], s[4], s[5]))
              else AddressIn(s) == AddressIn(s[n..])
  {
    if |s| >= 2 && 2 <= s[1] as int <= |s| {
      var list := OptionList(s);
      assert list[1..] == OptionList(s[s[1] as int..]);
    }
  }

  function OptionWire(o: ConfigOption): (w: seq<byte>)
    requires |o.value| <= 253
    ensures |w| == 2 + |o.value| && w[1] as int == |w|
  {
    ByteOfInt(2 + |o.value|);
    [o.kind, (2 + |o.value|) as byte] + o.value
  }

  function OptionsWire(list: seq<ConfigOption>): seq<byte>
    requires forall o :: o in list ==> |o.value| <= 253
  {
    if list == [] then [] else OptionWire(list[0]) + OptionsWire(list[1..])
  }

  lemma OneOption(o: ConfigOption, rest: seq<byte>)
    requires |o.value| <= 253
    ensures OptionList(OptionWire(o) + rest) == [o] + OptionList(rest)
  {
    var w, s := OptionWire(o), OptionWire(o) + rest;
    assert s[0] == w[0] && s[1] == w[1] && s[|w|..] == rest;
    assert s[2..|w|] == w[2..] == o.value;
  }

  /** The list is kind, length and value of each option; it is read back, and then whatever follows it. */
  lemma {:induction false} OptionsReadBack(list: seq<ConfigOption>, rest: seq<byte>)
    requires forall o :: o in list ==> |o.value| <= 253
    ensures OptionList(OptionsWire(list) + rest) == list + OptionList(rest)
  {
    hide OptionWire, OptionList;
    if list == [] {
      assert [] + rest == rest && [] + OptionList(rest) == OptionList(rest);
    } else {
      assert list[0] in list;
      AppendAssoc(OptionWire(list[0]), OptionsWire(list[1..]), rest);
      OneOption(list[0], OptionsWire(list[1..]) + rest);
      OptionsReadBack(list[1..], rest);
      AppendAssoc([list[0]], list[1..], OptionList(rest));
      assert list == [list[0]] + list[1..];
    }
  }

  /** The address option is 3, 6 and the four octets. */
  lemma AddressBytes(ip: Ipv4Addr, rest: seq<byte>)
    ensures AddressIn([3, 6, ip.a, ip.b, ip.c, ip.d] + rest) == Some(ip)
  {
    hide AddressIn;
    ListStep([3, 6, ip.a, ip.b, ip.c, ip.d] + rest);
  }

  method ParseIpcpIpAddress(options: seq<byte>) returns (result: Option<Ipv4Addr>)
    ensures result == AddressIn(options)
  {
    hide AddressIn;
    var offset := 0;
    assert options[0..] == options;
    while offset + 2 <= |options|
      invariant 0 <= offset <= |options|
      invariant AddressIn(options) == AddressIn(options[offset..])
    {
      ghost var rest := options[offset..];
      ListStep(rest);
      var optionType := options[offset];
      var optionLen := options[offset + 1] as int;
      if optionLen < 2 || offset + optionLen > |options| {
        return None;
      }
      if optionType == IP_ADDRESS && optionLen == 6 {
        return Some(Ipv4Addr(options[offset + 2], options[offset + 3], options[offset + 4], options[offset + 5]));
      }
      assert rest[optionLen..] == options[offset + optionLen..];
      offset := offset + optionLen;
    }
    ListStep(options[offset..]);
    return None;
  }

  // ---------- Control packets ----------

  datatype ControlPacket = ControlPacket(code: byte, identifier: byte, options: seq<byte>)

  function ParseControlPacket(payload: seq<byte>): Result<ControlPacket> {
    if |payload| < PPP_CONTROL_HEADER_LEN then Err(HdlcInvalidFrame)
    else
      var length := U16(payload[2], payload[3]);
      if length < PPP_CONTROL_HEADER_LEN || |payload| < length then Err(HdlcInvalidFrame)
      else Ok(ControlPacket(payload[0], payload[1], payload[PPP_CONTROL_HEADER_LEN..length]))
  }

  function ControlBytes(code: byte, identifier: byte, payload: seq<byte>): seq<byte> {
    [code, identifier] + BeBytes(PPP_CONTROL_HEADER_LEN + |payload|) + payload
  }

  /** A control packet parses back, bytes after its length field's end included, unless the length overflows. */
  lemma ControlRoundTrip(code: byte, identifier: byte, payload: seq<byte>, padding: seq<byte>)
    requires PPP_CONTROL_HEADER_LEN + |payload| <= 0xffff
    ensures ParseControlPacket(ControlBytes(code, identifier, payload) + padding)
            == Ok(ControlPacket(code, identifier, payload))
  {
    hide U16, BeBytes;
    var n := BeBytes(PPP_CONTROL_HEADER_LEN + |payload|);
    var s := ControlBytes(code, identifier, payload) + padding;
    assert s[0] == code && s[1] == identifier && s[2] == n[0] && s[3] == n[1];
    assert s[PPP_CONTROL_HEADER_LEN..PPP_CONTROL_HEADER_LEN + |payload|] == payload;
  }

  /** And nothing else does: what parses is the wire form of the result, with padding. */
  lemma ParsedIsControl(s: seq<byte>, c: ControlPacket)
    ensures ParseControlPacket(s) == Ok(c) <==>
            && PPP_CONTROL_HEADER_LEN + |c.options| <= 0xffff
            && ControlBytes(c.code, c.identifier, c.options) <= s
  {
    hide U16, BeBytes;
    var w := ControlBytes(c.code, c.identifier, c.options);
    if ParseControlPacket(s) == Ok(c) {
      BeBytesOfU16(s[2], s[3]);
      assert w == s[..|w|];
    }
    if PPP_CONTROL_HEADER_LEN + |c.options| <= 0xffff && w <= s {
      ControlRoundTrip(c.code, c.identifier, c.options, s[|w|..]);
      assert s == w + s[|w|..];
    }
  }

  // ---------- The walker over whole packets ----------

  predicate IsIpcp(p: Packet) {
    |p| >= 2 && p[0] == 0x80 && p[1] == 0x21
  }

  /** Reference: parse the control packet, then look through its options. */
  function IpcpAddress(p: Packet): Option<Ipv4Addr> {
    if !IsIpcp(p) then None
    else
      match ParseControlPacket(p[2..])
      case Err(_) => None
      case Ok(c) => AddressIn(c.options)
  }

  lemma AddressNeedsSixBytes(s: seq<byte>)
    ensures |s| < 6 ==> AddressIn(s) == None
    decreases |s|
  {
    hide AddressIn;
    ListStep(s);
    if |s| < 6 && |s| >= 2 && 2 <= s[1] as int <= |s| {
      AddressNeedsSixBytes(s[s[1] as int..]);
    }
  }

  /** The in-place walker over the whole packet means the same as the two parsers of the PPP engine. */
  method IpcpIpv4Address(p: Packet) returns (result: Option<Ipv4Addr>)
    ensures result == IpcpAddress(p)
  {
    hide AddressIn, U16;
    if |p| < 10 || p[0] != 0x80 || p[1] != 0x21 {
      ShortPacket(p);
      return None;
    }
    var length := U16(p[4], p[5]);
    if length < 4 || |p| < 2 + length {
      return None;
    }
    ghost var options := p[2..][PPP_CONTROL_HEADER_LEN..length];
    assert ParseControlPacket(p[2..]) == Ok(ControlPacket(p[2], p[3], options));
    var offset := 6;
    var end := 2 + length;
    assert options == p[6..end];
    while offset + 2 <= end
      invariant 6 <= offset <= end
      invariant IpcpAddress(p) == AddressIn(p[offset..end])
    {
      ghost var rest := p[offset..end];
      ListStep(rest);
      var optionType := p[offset];
      var optionLen := p[offset + 1] as int;
      if optionLen < 2 || offset + optionLen > end {
        return None;
      }
      if optionType == 0x03 && optionLen == 6 {
        return Some(Ipv4Addr(p[offset + 2], p[offset + 3], p[offset + 4], p[offset + 5]));
      }
      assert rest[optionLen..] == p[offset + optionLen..end];
      offset := offset + optionLen;
    }
    ListStep(p[offset..end]);
    return None;
  }

  lemma ShortPacket(p: Packet)
    requires |p| < 10 || p[0] != 0x80 || p[1] != 0x21
    ensures IpcpAddress(p) == None
  {
    hide AddressIn, U16;
    if IsIpcp(p) && ParseControlPacket(p[2..]).Ok? {
      AddressNeedsSixBytes(ParseControlPacket(p[2..]).value.options);
    }
  }
}
