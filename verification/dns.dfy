/** DNS over TCP, RFC 1035 sections 4.1 and 4.2.2: the query for an address and the parser of the response. */
module Dns {
  import opened Bytes
  import opened DnsNames
  import opened IpcpOptions

  const TYPE_A: nat := 1
  const CLASS_IN: nat := 1
  const HEADER_LEN: nat := 12

  // ---------- The grammar of a response ----------

  datatype Question = Question(name: Name, kind: nat, rrClass: nat)

  datatype Record = Record(name: Name, kind: nat, rrClass: nat, ttl: seq<byte>, rdata: seq<byte>)

  /** The parts of the header that the parser does not count with, and the two bytes of flags. */
  datatype Head = Head(id: nat, flagsHi: byte, flagsLo: byte, nsCount: nat, arCount: nat)

  predicate Skippable(name: Name) {
    WellFormed(name) && |name.labels| <= MAX_JUMPS
  }

  predicate GoodQuestion(q: Question) {
    Skippable(q.name) && q.kind < 0x1_0000 && q.rrClass < 0x1_0000
  }

  predicate GoodRecord(r: Record) {
    Skippable(r.name) && r.kind < 0x1_0000 && r.rrClass < 0x1_0000 && |r.ttl| == 4 && |r.rdata| < 0x1_0000
  }

  predicate GoodHead(h: Head) {
    h.id < 0x1_0000 && h.nsCount < 0x1_0000 && h.arCount < 0x1_0000
  }

  function QuestionWire(q: Question): seq<byte>
    requires GoodQuestion(q)
  {
    NameWire(q.name) + (BeBytes(q.kind) + BeBytes(q.rrClass))
  }

  function FixedWire(r: Record): (w: seq<byte>)
    requires GoodRecord(r)
    ensures |w| == 10
  {
    BeBytes(r.kind) + BeBytes(r.rrClass) + r.ttl + BeBytes(|r.rdata|)
  }

  function RecordWire(r: Record): seq<byte>
    requires GoodRecord(r)
  {
    NameWire(r.name) + (FixedWire(r) + r.rdata)
  }

  function QuestionsWire(qs: seq<Question>): seq<byte>
    requires forall q :: q in qs ==> GoodQuestion(q)
  {
    if qs == [] then [] else QuestionsWire(qs[..|qs| - 1]) + QuestionWire(qs[|qs| - 1])
  }

  function RecordsWire(rs: seq<Record>): seq<byte>
    requires forall r :: r in rs ==> GoodRecord(r)
  {
    if rs == [] then [] else RecordsWire(rs[..|rs| - 1]) + RecordWire(rs[|rs| - 1])
  }

  function HeadWire(h: Head, questions: nat, records: nat): (w: seq<byte>)
    ensures |w| == HEADER_LEN
  {
    BeBytes(h.id) + [h.flagsHi, h.flagsLo] + BeBytes(questions) + BeBytes(records)
    + BeBytes(h.nsCount) + BeBytes(h.arCount)
  }

  predicate IsResponse(flagsHi: byte) {
    flagsHi & 0x80 != 0
  }

  function Rcode(flagsLo: byte): byte {
    flagsLo & 0x0f
  }

  /** The addresses of the records of type A and class IN with four bytes of data, in their order. */
  function Addresses(rs: seq<Record>): seq<Ipv4Addr> {
    if rs == [] then []
    else
      var before, last := Addresses(rs[..|rs| - 1]), rs[|rs| - 1];
      if IsAddressRecord(last) then before + [AddressOf(last.rdata)] else before
  }

  predicate IsAddressRecord(r: Record) {
    r.kind == TYPE_A && r.rrClass == CLASS_IN && |r.rdata| == 4
  }

  function AddressOf(s: seq<byte>): Ipv4Addr
    requires |s| == 4
  {
    Ipv4Addr(s[0], s[1], s[2], s[3])
  }

  // ---------- The parser ----------

  datatype Parsed = Parsed(address: Option<Ipv4Addr>, end: nat)
  datatype Progress = Progress(addrs: seq<Ipv4Addr>, offset: nat)

  function ParseQuestion(m: seq<byte>, offset: nat): Result<nat> {
    match SkipFrom(m, offset, 0)
    case Err(e) => Err(e)
    case Ok(p) => if p + 4 > |m| then Err(Network("truncated DNS question")) else Ok(p + 4)
  }

  function ParseRecord(m: seq<byte>, offset: nat): Result<Parsed> {
    match SkipFrom(m, offset, 0)
    case Err(e) => Err(e)
    case Ok(p) =>
      if p + 10 > |m| then Err(Network("truncated DNS answer"))
      else
        var length := U16(m[p + 8], m[p + 9]);
        if p + 10 + length > |m| then Err(Network("truncated DNS rdata"))
        else
          var isAddress := U16(m[p], m[p + 1]) == TYPE_A && U16(m[p + 2], m[p + 3]) == CLASS_IN && length == 4;
          Ok(Parsed(if isAddress then Some(AddressOf(m[p + 10..p + 14])) else None, p + 10 + length))
  }

  function ParseQuestions(m: seq<byte>, start: nat, n: nat): Result<nat> {
    if n == 0 then Ok(start)
    else
      match ParseQuestions(m, start, n - 1)
      case Err(e) => Err(e)
      case Ok(offset) => ParseQuestion(m, offset)
  }

  function ParseRecords(m: seq<byte>, start: nat, n: nat): Result<Progress> {
    if n == 0 then Ok(Progress([], start))
    else
      match ParseRecords(m, start, n - 1)
      case Err(e) => Err(e)
      case Ok(before) =>
        match ParseRecord(m, before.offset)
        case Err(e) => Err(e)
        case Ok(one) =>
          Ok(Progress(if one.address.Some? then before.addrs + [one.address.value] else before.addrs, one.end))
  }

  function MessageAddresses(m: seq<byte>, id: nat): Result<seq<Ipv4Addr>> {
    if |m| < HEADER_LEN then Err(Network("short DNS response"))
    else if U16(m[0], m[1]) != id then Err(Network("DNS response id mismatch"))
    else if !IsResponse(m[2]) then Err(Network("DNS response is not marked as response"))
    else if Rcode(m[3]) != 0 then Err(Network("DNS response returned an error"))
    else
      match ParseQuestions(m, HEADER_LEN, U16(m[4], m[5]))
      case Err(e) => Err(e)
      case Ok(offset) =>
        match ParseRecords(m, offset, U16(m[6], m[7]))
        case Err(e) => Err(e)
        case Ok(all) => Ok(all.addrs)
  }

  function ResponseAddresses(frame: seq<byte>, id: nat): Result<seq<Ipv4Addr>> {
    if |frame| < 2 then Ok([])
    else
      var len := U16(frame[0], frame[1]);
      if |frame| < 2 + len then Ok([]) else MessageAddresses(frame[2..2 + len], id)
  }

  lemma {:induction false} QuestionErrorSticks(m: seq<byte>, start: nat, k: nat, n: nat)
    requires ParseQuestions(m, start, k).Err? && k <= n
    ensures ParseQuestions(m, start, n) == ParseQuestions(m, start, k)
  {
    if k < n {
      QuestionErrorSticks(m, start, k, n - 1);
    }
  }

  lemma {:induction false} RecordErrorSticks(m: seq<byte>, start: nat, k: nat, n: nat)
    requires ParseRecords(m, start, k).Err? && k <= n
    ensures ParseRecords(m, start, n) == ParseRecords(m, start, k)
  {
    if k < n {
      RecordErrorSticks(m, start, k, n - 1);
    }
  }

  method SkipQuestions(m: seq<byte>, n: nat) returns (r: Result<nat>)
    ensures r == ParseQuestions(m, HEADER_LEN, n)
  {
    hide SkipFrom;
    var offset := HEADER_LEN;
    for i := 0 to n
      invariant ParseQuestions(m, HEADER_LEN, i) == Ok(offset)
    {
      var end := SkipName(m, offset);
      if end.Err? {
        QuestionErrorSticks(m, HEADER_LEN, i + 1, n);
        return end;
      }
      offset := end.value;
      if offset + 4 > |m| {
        QuestionErrorSticks(m, HEADER_LEN, i + 1, n);
        return Err(Network("truncated DNS question"));
      }
      offset := offset + 4;
    }
    r := Ok(offset);
  }

  /** The body of the loop over the answers. */
  method ReadRecord(m: seq<byte>, start: nat) returns (r: Result<Parsed>)
    ensures r == ParseRecord(m, start)
  {
    hide SkipFrom, U16;
    var end := SkipName(m, start);
    if end.Err? {
      return Err(end.error);
    }
    var offset := end.value;
    if offset + 10 > |m| {
      return Err(Network("truncated DNS answer"));
    }
    var kind, rrClass := U16(m[offset], m[offset + 1]), U16(m[offset + 2], m[offset + 3]);
    var length := U16(m[offset + 8], m[offset + 9]);
    offset := offset + 10;
    if offset + length > |m| {
      return Err(Network("truncated DNS rdata"));
    }
    var address := None;
    if kind == TYPE_A && rrClass == CLASS_IN && length == 4 {
      address := Some(Ipv4Addr(m[offset], m[offset + 1], m[offset + 2], m[offset + 3]));
    }
    r := Ok(Parsed(address, offset + length));
  }

  method ReadRecords(m: seq<byte>, start: nat, n: nat) returns (r: Result<seq<Ipv4Addr>>)
    ensures r == match ParseRecords(m, start, n) case Err(e) => Err(e) case Ok(all) => Ok(all.addrs)
  {
    hide SkipFrom, ParseRecord;
    var offset := start;
    var addrs: seq<Ipv4Addr> := [];
    for i := 0 to n
      invariant ParseRecords(m, start, i) == Ok(Progress(addrs, offset))
    {
      var one := ReadRecord(m, offset);
      if one.Err? {
        RecordErrorSticks(m, start, i + 1, n);
        return Err(one.error);
      }
      if one.value.address.Some? {
        addrs := addrs + [one.value.address.value];
      }
      offset := one.value.end;
    }
    r := Ok(addrs);
  }

  method ParseMessage(m: seq<byte>, expectedId: nat) returns (r: Result<seq<Ipv4Addr>>)
    ensures r == MessageAddresses(m, expectedId)
  {
    hide ParseQuestions, ParseRecords, IsResponse, Rcode, U16;
    if |m| < HEADER_LEN {
      return Err(Network("short DNS response"));
    }
    if U16(m[0], m[1]) != expectedId {
      return Err(Network("DNS response id mismatch"));
    }
    if !IsResponse(m[2]) {
      return Err(Network("DNS response is not marked as response"));
    }
    if Rcode(m[3]) != 0 {
      return Err(Network("DNS response returned an error"));
    }
    var offset := SkipQuestions(m, U16(m[4], m[5]));
    if offset.Err? {
      return Err(offset.error);
    }
    r := ReadRecords(m, offset.value, U16(m[6], m[7]));
  }

  method ParseTcpResponse(frame: seq<byte>, expectedId: nat) returns (r: Result<seq<Ipv4Addr>>)
    ensures r == ResponseAddresses(frame, expectedId)
  {
    hide MessageAddresses, U16;
    if |frame| < 2 {
      return Ok([]);
    }
    var len := U16(frame[0], frame[1]);
    if |frame| < 2 + len {
      return Ok([]);
    }
    r := ParseMessage(frame[2..2 + len], expectedId);
  }

  // ---------- What the header decides ----------

  /** The first of the 16 flags marks a response, and the last four are the response code. */
  lemma FlagBits(b: byte)
    ensures IsResponse(b) <==> b as int >= 128
    ensures Rcode(b) == 0 <==> b as int % 16 == 0
  {
    assert b & 0x0f == b % 16;
    LowNibble(b);
  }

  lemma LowNibble(b: byte)
    ensures b % 16 == 0 <==> b as int % 16 == 0
  {
  }

  /**
   * The twelve bytes of the header decide in this order: its length, the identifier, the mark of a response, the
   * response code. A message with any of them wrong is rejected for the first that is.
   */
  lemma HeaderDecides(m: seq<byte>, id: nat)
    ensures |m| < 12 ==> MessageAddresses(m, id) == Err(Network("short DNS response"))
    ensures |m| >= 12 ==>
              && (256 * m[0] as int + m[1] as int != id ==>
                    MessageAddresses(m, id) == Err(Network("DNS response id mismatch")))
              && (256 * m[0] as int + m[1] as int == id && m[2] as int < 128 ==>
                    MessageAddresses(m, id) == Err(Network("DNS response is not marked as response")))
              && (256 * m[0] as int + m[1] as int == id && m[2] as int >= 128 && m[3] as int % 16 != 0 ==>
                    MessageAddresses(m, id) == Err(Network("DNS response returned an error")))
    ensures MessageAddresses(m, id).Ok? ==>
              && |m| >= 12 && 256 * m[0] as int + m[1] as int == id
              && m[2] as int >= 128 && m[3] as int % 16 == 0
  {
    hide IsResponse, Rcode, ParseQuestions, ParseRecords;
    if |m| >= 12 {
      FlagBits(m[2]);
      FlagBits(m[3]);
    }
  }

  // ---------- What is written is read ----------

  lemma QuestionParses(m: seq<byte>, o: nat, q: Question)
    requires GoodQuestion(q) && At(m, o, QuestionWire(q))
    ensures ParseQuestion(m, o) == Ok(o + |QuestionWire(q)|)
  {
    hide SkipFrom, NameWire, WellFormed, U16;
    AtSplit(m, o, NameWire(q.name), BeBytes(q.kind) + BeBytes(q.rrClass));
    SkipsWholeName(m, o, q.name, 0);
  }

  lemma {:induction false} QuestionsParse(m: seq<byte>, start: nat, qs: seq<Question>)
    requires (forall q :: q in qs ==> GoodQuestion(q)) && At(m, start, QuestionsWire(qs))
    ensures ParseQuestions(m, start, |qs|) == Ok(start + |QuestionsWire(qs)|)
  {
    hide GoodQuestion, At, QuestionWire, ParseQuestion;
    if qs != [] {
      var before, last := qs[..|qs| - 1], qs[|qs| - 1];
      AtSplit(m, start, QuestionsWire(before), QuestionWire(last));
      QuestionsParse(m, start, before);
      QuestionParses(m, start + |QuestionsWire(before)|, last);
    }
  }

  lemma Element16(m: seq<byte>, p: nat, w: seq<byte>, i: nat, n: nat)
    requires At(m, p, w) && n < 0x1_0000 && i + 2 <= |w| && w[i..i + 2] == BeBytes(n)
    ensures U16(m[p + i], m[p + i + 1]) == n
  {
    hide U16;
    AtElement(m, p, w, i);
    AtElement(m, p, w, i + 1);
    assert w[i] == BeBytes(n)[0] && w[i + 1] == BeBytes(n)[1];
  }

  lemma FixedFields(m: seq<byte>, p: nat, r: Record)
    requires GoodRecord(r) && At(m, p, FixedWire(r))
    ensures p + 10 <= |m|
    ensures U16(m[p], m[p + 1]) == r.kind && U16(m[p + 2], m[p + 3]) == r.rrClass
    ensures U16(m[p + 8], m[p + 9]) == |r.rdata|
  {
    hide U16, BeBytes, GoodRecord;
    var w := FixedWire(r);
    assert w[0..2] == BeBytes(r.kind) && w[2..4] == BeBytes(r.rrClass) && w[8..10] == BeBytes(|r.rdata|);
    GoodSizes(r);
    Element16(m, p, w, 0, r.kind);
    Element16(m, p, w, 2, r.rrClass);
    Element16(m, p, w, 8, |r.rdata|);
  }

  lemma GoodSizes(r: Record)
    requires GoodRecord(r)
    ensures r.kind < 0x1_0000 && r.rrClass < 0x1_0000 && |r.rdata| < 0x1_0000
  {
    hide Skippable;
  }

  function FoundIn(r: Record): Option<Ipv4Addr> {
    if IsAddressRecord(r) then Some(AddressOf(r.rdata)) else None
  }

  lemma RdataAt(m: seq<byte>, p: nat, rdata: seq<byte>)
    requires At(m, p, rdata)
    ensures p + |rdata| <= |m| && m[p..p + |rdata|] == rdata
  {
  }

  lemma RecordParses(m: seq<byte>, o: nat, r: Record)
    requires GoodRecord(r) && At(m, o, RecordWire(r))
    ensures ParseRecord(m, o) == Ok(Parsed(FoundIn(r), o + |RecordWire(r)|))
  {
    hide SkipFrom, NameWire, WellFormed, U16, FixedWire, At;
    var p := o + |NameWire(r.name)|;
    AtSplit(m, o, NameWire(r.name), FixedWire(r) + r.rdata);
    SkipsWholeName(m, o, r.name, 0);
    AtSplit(m, p, FixedWire(r), r.rdata);
    FixedFields(m, p, r);
    RdataAt(m, p + 10, r.rdata);
  }

  lemma {:induction false} RecordsParse(m: seq<byte>, start: nat, rs: seq<Record>)
    requires (forall r :: r in rs ==> GoodRecord(r)) && At(m, start, RecordsWire(rs))
    ensures ParseRecords(m, start, |rs|) == Ok(Progress(Addresses(rs), start + |RecordsWire(rs)|))
  {
    hide GoodRecord, At, RecordWire, ParseRecord, IsAddressRecord;
    if rs != [] {
      var before, last := rs[..|rs| - 1], rs[|rs| - 1];
      AtSplit(m, start, RecordsWire(before), RecordWire(last));
      RecordsParse(m, start, before);
      RecordParses(m, start + |RecordsWire(before)|, last);
    }
  }

  /** A whole message; the authority and additional sections are whatever follows the answers. */
  function MessageWire(h: Head, qs: seq<Question>, rs: seq<Record>, tail: seq<byte>): seq<byte>
    requires (forall q :: q in qs ==> GoodQuestion(q)) && (forall r :: r in rs ==> GoodRecord(r))
  {
    HeadWire(h, |qs|, |rs|) + (QuestionsWire(qs) + (RecordsWire(rs) + tail))
  }

  predicate GoodMessage(h: Head, qs: seq<Question>, rs: seq<Record>) {
    && GoodHead(h) && |qs| < 0x1_0000 && |rs| < 0x1_0000
    && (forall q :: q in qs ==> GoodQuestion(q)) && (forall r :: r in rs ==> GoodRecord(r))
  }

  lemma HeadFields(m: seq<byte>, h: Head, questions: nat, records: nat)
    requires GoodHead(h) && questions < 0x1_0000 && records < 0x1_0000 && At(m, 0, HeadWire(h, questions, records))
    ensures |m| >= HEADER_LEN && U16(m[0], m[1]) == h.id && m[2] == h.flagsHi && m[3] == h.flagsLo
    ensures U16(m[4], m[5]) == questions && U16(m[6], m[7]) == records
  {
    hide U16, BeBytes;
    var w := HeadWire(h, questions, records);
    assert w[0..2] == BeBytes(h.id) && w[4..6] == BeBytes(questions) && w[6..8] == BeBytes(records);
    assert w[2] == h.flagsHi && w[3] == h.flagsLo;
    Element16(m, 0, w, 0, h.id);
    Element16(m, 0, w, 4, questions);
    Element16(m, 0, w, 6, records);
    AtElement(m, 0, w, 2);
    AtElement(m, 0, w, 3);
  }

  lemma AtWhole<T>(w: seq<T>)
    ensures At(w, 0, w)
  {
  }

  /** The parser reads exactly the addresses of a successful response with the expected identifier. */
  lemma MessageParses(h: Head, qs: seq<Question>, rs: seq<Record>, tail: seq<byte>)
    requires GoodMessage(h, qs, rs)
    requires h.flagsHi as int >= 128 && h.flagsLo as int % 16 == 0
    ensures MessageAddresses(MessageWire(h, qs, rs, tail), h.id) == Ok(Addresses(rs))
  {
    hide GoodRecord, GoodQuestion, At, RecordsWire, QuestionsWire, HeadWire, U16, IsResponse, Rcode, Addresses;
    hide ParseRecords, ParseQuestions;
    FlagBits(h.flagsHi);
    FlagBits(h.flagsLo);
    var m := MessageWire(h, qs, rs, tail);
    var head := HeadWire(h, |qs|, |rs|);
    AtWhole(m);
    AtSplit(m, 0, head, QuestionsWire(qs) + (RecordsWire(rs) + tail));
    AtSplit(m, HEADER_LEN, QuestionsWire(qs), RecordsWire(rs) + tail);
    AtSplit(m, HEADER_LEN + |QuestionsWire(qs)|, RecordsWire(rs), tail);
    HeadFields(m, h, |qs|, |rs|);
    QuestionsParse(m, HEADER_LEN, qs);
    RecordsParse(m, HEADER_LEN + |QuestionsWire(qs)|, rs);
  }

  // ---------- What is read was written ----------

  lemma QuestionRead(m: seq<byte>, o: nat) returns (q: Question)
    requires ParseQuestion(m, o).Ok?
    ensures GoodQuestion(q) && At(m, o, QuestionWire(q))
    ensures ParseQuestion(m, o) == Ok(o + |QuestionWire(q)|) && o + |QuestionWire(q)| <= |m|
  {
    hide SkipFrom, NameWire, WellFormed, U16, BeBytes;
    var name := SkippedIsName(m, o, 0);
    var p := o + |NameWire(name)|;
    q := Question(name, U16(m[p], m[p + 1]), U16(m[p + 2], m[p + 3]));
    BeBytesOfU16(m[p], m[p + 1]);
    BeBytesOfU16(m[p + 2], m[p + 3]);
    assert BeBytes(q.kind) + BeBytes(q.rrClass) == m[p..p + 4];
    AtSplit(m, o, NameWire(name), BeBytes(q.kind) + BeBytes(q.rrClass));
  }


  lemma NoQuestions(m: seq<byte>, start: nat) returns (qs: seq<Question>)
    requires start <= |m|
    ensures qs == [] && QuestionsWire(qs) == [] && At(m, start, QuestionsWire(qs))
  {
    qs := [];
  }

  lemma QuestionsSnoc(qs: seq<Question>, last: Question)
    requires (forall q :: q in qs ==> GoodQuestion(q)) && GoodQuestion(last)
    ensures forall q :: q in qs + [last] ==> GoodQuestion(q)
    ensures QuestionsWire(qs + [last]) == QuestionsWire(qs) + QuestionWire(last)
  {
    hide GoodQuestion, QuestionWire;
    assert (qs + [last])[..|qs|] == qs;
  }

  lemma {:induction false} QuestionsRead(m: seq<byte>, start: nat, n: nat) returns (qs: seq<Question>)
    requires ParseQuestions(m, start, n).Ok? && start <= |m|
    ensures |qs| == n && (forall q :: q in qs ==> GoodQuestion(q)) && At(m, start, QuestionsWire(qs))
    ensures start + |QuestionsWire(qs)| <= |m|
    ensures ParseQuestions(m, start, n) == Ok(start + |QuestionsWire(qs)|)
  {
    hide GoodQuestion, QuestionWire, QuestionsWire, ParseQuestion, At;
    if n == 0 {
      qs := NoQuestions(m, start);
    } else {
      var before := QuestionsRead(m, start, n - 1);
      var last := QuestionRead(m, start + |QuestionsWire(before)|);
      qs := before + [last];
      QuestionsSnoc(before, last);
      AtSplit(m, start, QuestionsWire(before), QuestionWire(last));
    }
  }

  lemma FixedRead(m: seq<byte>, p: nat, name: Name) returns (r: Record)
    requires Skippable(name) && p + 10 <= |m| && p + 10 + U16(m[p + 8], m[p + 9]) <= |m|
    ensures GoodRecord(r) && r.name == name && At(m, p, FixedWire(r) + r.rdata)
    ensures r.kind == U16(m[p], m[p + 1]) && r.rrClass == U16(m[p + 2], m[p + 3])
    ensures |r.rdata| == U16(m[p + 8], m[p + 9])
    ensures |r.rdata| == 4 ==> r.rdata == m[p + 10..p + 14]
  {
    hide U16, BeBytes, Skippable;
    var length := U16(m[p + 8], m[p + 9]);
    r := Record(name, U16(m[p], m[p + 1]), U16(m[p + 2], m[p + 3]), m[p + 4..p + 8], m[p + 10..p + 10 + length]);
    BeBytesOfU16(m[p], m[p + 1]);
    BeBytesOfU16(m[p + 2], m[p + 3]);
    BeBytesOfU16(m[p + 8], m[p + 9]);
    assert FixedWire(r) == m[p..p + 10];
    assert FixedWire(r) + r.rdata == m[p..p + 10 + length];
  }

  lemma RecordRead(m: seq<byte>, o: nat) returns (r: Record)
    requires ParseRecord(m, o).Ok?
    ensures GoodRecord(r) && At(m, o, RecordWire(r))
    ensures ParseRecord(m, o) == Ok(Parsed(FoundIn(r), o + |RecordWire(r)|))
  {
    hide SkipFrom, NameWire, WellFormed, U16, FixedWire;
    var name := SkippedIsName(m, o, 0);
    r := FixedRead(m, o + |NameWire(name)|, name);
    AtSplit(m, o, NameWire(name), FixedWire(r) + r.rdata);
  }

  lemma NoRecords(m: seq<byte>, start: nat) returns (rs: seq<Record>)
    requires start <= |m|
    ensures rs == [] && RecordsWire(rs) == [] && At(m, start, RecordsWire(rs)) && Addresses(rs) == []
  {
    rs := [];
  }

  lemma RecordsSnoc(rs: seq<Record>, last: Record)
    requires (forall r :: r in rs ==> GoodRecord(r)) && GoodRecord(last)
    ensures forall r :: r in rs + [last] ==> GoodRecord(r)
    ensures RecordsWire(rs + [last]) == RecordsWire(rs) + RecordWire(last)
    ensures Addresses(rs + [last]) ==
            if FoundIn(last).Some? then Addresses(rs) + [FoundIn(last).value] else Addresses(rs)
  {
    hide GoodRecord, RecordWire, IsAddressRecord;
    assert (rs + [last])[..|rs|] == rs;
  }

  lemma {:induction false} RecordsRead(m: seq<byte>, start: nat, n: nat) returns (rs: seq<Record>)
    requires ParseRecords(m, start, n).Ok? && start <= |m|
    ensures |rs| == n && (forall r :: r in rs ==> GoodRecord(r)) && At(m, start, RecordsWire(rs))
    ensures ParseRecords(m, start, n) == Ok(Progress(Addresses(rs), start + |RecordsWire(rs)|))
  {
    hide GoodRecord, RecordWire, RecordsWire, ParseRecord, At, Addresses, FoundIn;
    if n == 0 {
      rs := NoRecords(m, start);
    } else {
      var before := RecordsRead(m, start, n - 1);
      var last := RecordRead(m, start + |RecordsWire(before)|);
      rs := before + [last];
      RecordsSnoc(before, last);
      AtSplit(m, start, RecordsWire(before), RecordWire(last));
    }
  }

  lemma HeadRead(m: seq<byte>) returns (h: Head)
    requires |m| >= HEADER_LEN
    ensures GoodHead(h) && At(m, 0, HeadWire(h, U16(m[4], m[5]), U16(m[6], m[7])))
    ensures h.id == U16(m[0], m[1]) && h.flagsHi == m[2] && h.flagsLo == m[3]
  {
    hide U16, BeBytes;
    h := Head(U16(m[0], m[1]), m[2], m[3], U16(m[8], m[9]), U16(m[10], m[11]));
    BeBytesOfU16(m[0], m[1]);
    BeBytesOfU16(m[4], m[5]);
    BeBytesOfU16(m[6], m[7]);
    BeBytesOfU16(m[8], m[9]);
    BeBytesOfU16(m[10], m[11]);
    assert HeadWire(h, U16(m[4], m[5]), U16(m[6], m[7])) == m[..HEADER_LEN];
  }

  /** Whatever the parser accepts is a successful response, and it returns exactly the addresses in it. */
  lemma MessageRead(m: seq<byte>, id: nat)
    returns (h: Head, qs: seq<Question>, rs: seq<Record>, tail: seq<byte>)
    requires MessageAddresses(m, id).Ok?
    ensures GoodMessage(h, qs, rs) && h.id == id && h.flagsHi as int >= 128 && h.flagsLo as int % 16 == 0
    ensures m == MessageWire(h, qs, rs, tail)
    ensures MessageAddresses(m, id) == Ok(Addresses(rs))
  {
    hide GoodRecord, GoodQuestion, RecordsWire, QuestionsWire, HeadWire, U16, IsResponse, Rcode, Addresses;
    hide ParseRecords, ParseQuestions, At;
    HeaderDecides(m, id);
    h := HeadRead(m);
    qs := QuestionsRead(m, HEADER_LEN, U16(m[4], m[5]));
    var o := HEADER_LEN + |QuestionsWire(qs)|;
    rs := RecordsRead(m, o, U16(m[6], m[7]));
    tail := Pieces(m, HeadWire(h, |qs|, |rs|), QuestionsWire(qs), RecordsWire(rs));
  }

  lemma Pieces<T>(m: seq<T>, a: seq<T>, b: seq<T>, c: seq<T>) returns (tail: seq<T>)
    requires At(m, 0, a) && At(m, |a|, b) && At(m, |a| + |b|, c)
    ensures m == a + (b + (c + tail))
  {
    tail := m[|a| + |b| + |c|..];
    assert m[|a| + |b|..] == c + tail;
    assert m[|a|..] == b + m[|a| + |b|..];
    assert m == a + m[|a|..];
  }

  // ---------- Frames and queries ----------

  /** A message in the framing of DNS over TCP. */
  function Framed(m: seq<byte>): (f: seq<byte>)
    requires |m| < 0x1_0000
    ensures |f| == 2 + |m|
  {
    BeBytes(|m|) + m
  }

  /** Until the frame is complete there are no addresses and no error; what follows it changes nothing. */
  lemma FrameIsReadWhole(m: seq<byte>, id: nat, k: nat, more: seq<byte>)
    requires |m| < 0x1_0000
    ensures k < |Framed(m)| ==> ResponseAddresses(Framed(m)[..k], id) == Ok([])
    ensures ResponseAddresses(Framed(m) + more, id) == MessageAddresses(m, id)
  {
    hide U16, BeBytes, MessageAddresses;
    var f := Framed(m);
    assert f[0] == BeBytes(|m|)[0] && f[1] == BeBytes(|m|)[1];
    assert (f + more)[2..2 + |m|] == m;
    if 2 <= k < |f| {
      assert f[..k][0] == f[0] && f[..k][1] == f[1];
    }
  }

  function QueryHead(id: nat): Head {
    Head(id, 0x01, 0x00, 0, 0)
  }

  function QueryMessage(id: nat, encoded: seq<byte>): seq<byte> {
    HeadWire(QueryHead(id), 1, 0) + (encoded + (BeBytes(TYPE_A) + BeBytes(CLASS_IN)))
  }

  method BuildTcpQuery(id: nat, name: seq<byte>) returns (r: Result<seq<byte>>)
    requires id < 0x1_0000
    ensures EncodedName(name).Err? ==> r == Err(EncodedName(name).error)
    ensures EncodedName(name).Ok? ==>
              var m := QueryMessage(id, EncodedName(name).value);
              r == if |m| < 0x1_0000 then Ok(Framed(m)) else Err(Network("DNS query is too large"))
  {
    hide EncodedName, BeBytes;
    var message := BeBytes(id) + BeBytes(0x0100) + BeBytes(1) + BeBytes(0) + BeBytes(0) + BeBytes(0);
    QueryFlags();
    var head := HeadWire(QueryHead(id), 1, 0);
    assert message == head;
    var encoded;
    encoded, message := EncodeName(name, message);
    if encoded.Err? {
      return Err(encoded.error);
    }
    AppendAssoc(head, EncodedName(name).value, BeBytes(TYPE_A) + BeBytes(CLASS_IN));
    AppendAssoc(message, BeBytes(TYPE_A), BeBytes(CLASS_IN));
    message := message + BeBytes(TYPE_A) + BeBytes(CLASS_IN);
    if |message| > 0xffff {
      return Err(Network("DNS query is too large"));
    }
    r := Ok(BeBytes(|message|) + message);
  }

  lemma QueryFlags()
    ensures BeBytes(0x0100) == [0x01, 0x00]
  {
    BeBytesOfDigits(1, 0);
  }

  /**
   * The bytes of a query: its length, the identifier, the flags with recursion desired, the counts of one question
   * and nothing else, the name, and the numbers of type A and class IN.
   */
  lemma QueryBytes(id: nat, encoded: seq<byte>)
    requires id < 0x1_0000 && |QueryMessage(id, encoded)| < 0x1_0000
    ensures
      var f, n := Framed(QueryMessage(id, encoded)), 16 + |encoded|;
      && |f| == 2 + n && 256 * f[0] as int + f[1] as int == n && 256 * f[2] as int + f[3] as int == id
      && f[4..14] == [0x01, 0x00, 0, 1, 0, 0, 0, 0, 0, 0]
      && f[14..14 + |encoded|] == encoded && f[14 + |encoded|..] == [0, 1, 0, 1]
  {
    hide BeBytes;
    QueryFlags();
    BeBytesOfDigits(0, 0);
    BeBytesOfDigits(0, 1);
    BigEndian(id);
    BigEndian(16 + |encoded|);
    QueryParts(BeBytes(16 + |encoded|), BeBytes(id), [0x01, 0x00, 0, 1, 0, 0, 0, 0, 0, 0], encoded, [0, 1, 0, 1]);
    assert HeadWire(QueryHead(id), 1, 0) == BeBytes(id) + [0x01, 0x00, 0, 1, 0, 0, 0, 0, 0, 0];
    assert BeBytes(TYPE_A) + BeBytes(CLASS_IN) == [0, 1, 0, 1];
  }

  lemma QueryParts<T>(length: seq<T>, id: seq<T>, counts: seq<T>, name: seq<T>, kind: seq<T>)
    requires |length| == 2 && |id| == 2 && |counts| == 10 && |kind| == 4
    ensures
      var f := length + (id + counts + (name + kind));
      && f[0] == length[0] && f[1] == length[1] && f[2] == id[0] && f[3] == id[1]
      && f[4..14] == counts && f[14..14 + |name|] == name && f[14 + |name|..] == kind
  {
  }

  /** In the grammar of messages it is the message with the one question for the name. */
  lemma QueryIsMessage(id: nat, name: seq<byte>)
    requires id < 0x1_0000 && EncodedName(name).Ok? && |LabelsOf(name)| <= 128
    ensures GoodMessage(QueryHead(id), [QuestionFor(name)], [])
    ensures QueryMessage(id, EncodedName(name).value) == MessageWire(QueryHead(id), [QuestionFor(name)], [], [])
  {
    hide LabelsOf, NameWire, BeBytes, HeadWire;
    EchoIsMessage(QueryHead(id), name, [], []);
    var m := EncodedName(name).value + (BeBytes(TYPE_A) + BeBytes(CLASS_IN));
    AppendEmpty(m, RecordsWire([]) + []);
    assert EchoWire(QueryHead(id), name, [], []) == QueryMessage(id, EncodedName(name).value);
  }

  /** The bytes of a record of type A and class IN, and the address they are read as. */
  lemma AddressRecordBytes(r: Record)
    requires GoodRecord(r) && IsAddressRecord(r)
    ensures Addresses([r]) == [AddressOf(r.rdata)]
    ensures
      var ip := AddressOf(r.rdata);
      RecordWire(r) == NameWire(r.name) + [0, 1, 0, 1] + r.ttl + [0, 4, ip.a, ip.b, ip.c, ip.d]
  {
    hide BeBytes, NameWire, WellFormed;
    assert [r][..0] == [];
    BeBytesOfDigits(0, 1);
    BeBytesOfDigits(0, 4);
  }

  function QuestionFor(name: seq<byte>): Question
    requires EncodedName(name).Ok?
  {
    Question(Name(LabelsOf(name), Root), TYPE_A, CLASS_IN)
  }

  /**
   * The round trip: a server that echoes the question and answers with any list of records, names plain or by
   * pointer, in one frame with anything behind it, is understood exactly, provided the name has at most 128
   * labels; for any longer name the answer is rejected, whatever it says.
   */
  lemma AnswerToQueryIsUnderstood(h: Head, name: seq<byte>, rs: seq<Record>, tail: seq<byte>, more: seq<byte>)
    requires GoodHead(h) && h.flagsHi as int >= 128 && h.flagsLo as int % 16 == 0
    requires EncodedName(name).Ok? && |rs| < 0x1_0000 && forall r :: r in rs ==> GoodRecord(r)
    requires |EchoWire(h, name, rs, tail)| < 0x1_0000
    ensures ResponseAddresses(Framed(EchoWire(h, name, rs, tail)) + more, h.id) ==
            if |LabelsOf(name)| <= 128 then Ok(Addresses(rs)) else Err(Network("DNS name too deep"))
  {
    hide *;
    var m := EchoWire(h, name, rs, tail);
    FrameIsReadWhole(m, h.id, 0, more);
    if |LabelsOf(name)| <= 128 {
      EchoIsMessage(h, name, rs, tail);
      MessageParses(h, [QuestionFor(name)], rs, tail);
    } else {
      DeepEchoFails(h, name, rs, tail);
    }
  }

  /** The response with the question of the query for a name. */
  function EchoWire(h: Head, name: seq<byte>, rs: seq<Record>, tail: seq<byte>): seq<byte>
    requires EncodedName(name).Ok? && forall r :: r in rs ==> GoodRecord(r)
  {
    HeadWire(h, 1, |rs|)
    + (EncodedName(name).value + (BeBytes(TYPE_A) + BeBytes(CLASS_IN)) + (RecordsWire(rs) + tail))
  }

  lemma EchoIsMessage(h: Head, name: seq<byte>, rs: seq<Record>, tail: seq<byte>)
    requires GoodHead(h) && |rs| < 0x1_0000 && (forall r :: r in rs ==> GoodRecord(r))
    requires EncodedName(name).Ok? && |LabelsOf(name)| <= 128
    ensures GoodQuestion(QuestionFor(name)) && GoodMessage(h, [QuestionFor(name)], rs)
    ensures EchoWire(h, name, rs, tail) == MessageWire(h, [QuestionFor(name)], rs, tail)
  {
    hide GoodRecord, LabelsOf, NameWire, HeadWire, RecordsWire, BeBytes;
    var q := QuestionFor(name);
    assert GoodQuestion(q);
    assert [q][..0] == [];
    assert QuestionsWire([q]) == QuestionsWire([]) + QuestionWire(q);
    assert [] + QuestionWire(q) == QuestionWire(q);
  }

  lemma DeepEchoFails(h: Head, name: seq<byte>, rs: seq<Record>, tail: seq<byte>)
    requires GoodHead(h) && h.flagsHi as int >= 128 && h.flagsLo as int % 16 == 0
    requires EncodedName(name).Ok? && |rs| < 0x1_0000 && forall r :: r in rs ==> GoodRecord(r)
    requires |LabelsOf(name)| > 128
    ensures MessageAddresses(EchoWire(h, name, rs, tail), h.id) == Err(Network("DNS name too deep"))
  {
    hide GoodRecord, LabelsOf, EncodedName, HeadWire, RecordsWire, BeBytes, U16, IsResponse, Rcode, At, SkipFrom;
    hide ParseRecords;
    FlagBits(h.flagsHi);
    FlagBits(h.flagsLo);
    var m, encoded := EchoWire(h, name, rs, tail), EncodedName(name).value;
    var ending := BeBytes(TYPE_A) + BeBytes(CLASS_IN);
    AtWhole(m);
    AtSplit(m, 0, HeadWire(h, 1, |rs|), encoded + ending + (RecordsWire(rs) + tail));
    AtSplit(m, HEADER_LEN, encoded + ending, RecordsWire(rs) + tail);
    AtSplit(m, HEADER_LEN, encoded, ending);
    HeadFields(m, h, 1, |rs|);
    EncodedNameIsSkipped(name, m, HEADER_LEN);
    assert ParseQuestions(m, HEADER_LEN, 0) == Ok(HEADER_LEN);
    assert ParseQuestion(m, HEADER_LEN).Err?;
    assert ParseQuestions(m, HEADER_LEN, 1) == Err(Network("DNS name too deep"));
  }
}
