/** The 6-byte header that carries one PPP packet over TLS. */
module Packets {
  import opened Bytes

  const FORTINET_MAGIC: nat := 0x5050
  const HEADER_LEN: nat := 6
  const MAX_DATA: nat := 0xffff - HEADER_LEN
  const HTTP_HEADER_PREFIX: seq<byte> := [0x48, 0x54, 0x54, 0x50, 0x2f, 0x31]

  function Header(total: nat, size: nat): (h: seq<byte>)
    ensures |h| == HEADER_LEN
  {
    BeBytes(total) + BeBytes(FORTINET_MAGIC) + BeBytes(size)
  }

  function FrameOf(data: Packet): seq<byte> {
    Header(HEADER_LEN + |data|, |data|) + data
  }

  function EncodeForTls(data: Packet): Result<seq<byte>> {
    if |data| > MAX_DATA then Err(HdlcInvalidFrame)
    else Ok(FrameOf(data))
  }

  function Total(frame: seq<byte>): nat
    requires |frame| >= HEADER_LEN
  {
    U16(frame[0], frame[1])
  }

  predicate HeaderIsValid(frame: seq<byte>)
    requires |frame| >= HEADER_LEN
  {
    && U16(frame[2], frame[3]) == FORTINET_MAGIC
    && Total(frame) >= HEADER_LEN + 1
    && Total(frame) - HEADER_LEN == U16(frame[4], frame[5])
  }

  function DecodeFromTlsFrame(frame: seq<byte>): Result<Packet> {
    if |frame| < HEADER_LEN then Err(HdlcInvalidFrame)
    else if !HeaderIsValid(frame) then Err(HdlcInvalidFrame)
    else if |frame| != Total(frame) then Err(HdlcInvalidFrame)
    else Ok(frame[HEADER_LEN..])
  }

  lemma HeaderFields(total: nat, size: nat, data: Packet)
    requires total < 0x1_0000 && size < 0x1_0000
    ensures
      var f := Header(total, size) + data;
      Total(f) == total && U16(f[2], f[3]) == FORTINET_MAGIC && U16(f[4], f[5]) == size
  {
    hide BeBytes, U16;
    var f := Header(total, size) + data;
    var a, b, c := BeBytes(total), BeBytes(FORTINET_MAGIC), BeBytes(size);
    assert f[0] == a[0] && f[1] == a[1] && f[2] == b[0] && f[3] == b[1] && f[4] == c[0] && f[5] == c[1];
  }

  lemma HeaderFromFields(frame: seq<byte>)
    requires |frame| >= HEADER_LEN
    ensures frame == BeBytes(U16(frame[0], frame[1])) + BeBytes(U16(frame[2], frame[3]))
                     + BeBytes(U16(frame[4], frame[5])) + frame[HEADER_LEN..]
  {
    hide BeBytes, U16;
    BeBytesOfU16(frame[0], frame[1]);
    BeBytesOfU16(frame[2], frame[3]);
    BeBytesOfU16(frame[4], frame[5]);
  }

  /** The bytes of a frame: its own length, 50 50, the length of the packet, the packet. */
  lemma FrameBytes(data: Packet)
    requires |data| <= 65529
    ensures
      var f := FrameOf(data);
      && |f| == 6 + |data| && 256 * f[0] as int + f[1] as int == 6 + |data| && f[2..4] == [0x50, 0x50]
      && 256 * f[4] as int + f[5] as int == |data| && f[6..] == data
  {
    hide BeBytes;
    BigEndian(6 + |data|);
    BigEndian(|data|);
    BeBytesOfDigits(0x50, 0x50);
    FourPieces(BeBytes(6 + |data|), BeBytes(FORTINET_MAGIC), BeBytes(|data|), data);
  }

  lemma FourPieces<T>(a: seq<T>, b: seq<T>, c: seq<T>, d: seq<T>)
    requires |a| == |b| == |c| == 2
    ensures
      var f := a + b + c + d;
      f[0] == a[0] && f[1] == a[1] && f[2..4] == b && f[4] == c[0] && f[5] == c[1] && f[6..] == d
  {
  }

  /** A packet can be sent exactly when it has at most 65529 bytes. */
  lemma EncodableIff(data: Packet)
    ensures EncodeForTls(data) == if |data| <= 65529 then Ok(FrameOf(data)) else Err(HdlcInvalidFrame)
  {
    hide FrameOf;
  }

  /** A header is valid exactly if it is that of a non-empty packet of the length it announces. */
  lemma HeaderIffFrame(frame: seq<byte>, data: Packet)
    requires |frame| >= 6 && |data| <= 65529
    ensures HeaderIsValid(frame) ==> Total(frame) >= 7
    ensures Total(frame) == 6 + |data| ==> (HeaderIsValid(frame) <==> data != [] && frame[..6] == FrameOf(data)[..6])
  {
    hide BeBytes, U16;
    HeaderFromFields(frame);
    FrameStart(data);
    if data != [] && frame[..6] == Header(6 + |data|, |data|) {
      StartsLikeFrame(frame, |data|);
    }
  }

  lemma FrameStart(data: Packet)
    ensures |FrameOf(data)| >= 6 && FrameOf(data)[..6] == Header(6 + |data|, |data|)
  {
    hide BeBytes;
  }

  lemma StartsLikeFrame(frame: seq<byte>, size: nat)
    requires |frame| >= 6 && 1 <= size <= 65529 && frame[..6] == Header(6 + size, size)
    ensures HeaderIsValid(frame)
  {
    hide BeBytes, U16, Header;
    assert frame == frame[..6] + frame[6..];
    HeaderFields(6 + size, size, frame[6..]);
  }

  /** The receiver accepts exactly what the sender produces, and only non-empty packets. */
  lemma DecodeIffEncode(frame: seq<byte>, data: Packet)
    ensures DecodeFromTlsFrame(frame) == Ok(data) <==> data != [] && EncodeForTls(data) == Ok(frame)
  {
    hide BeBytes, U16;
    if data != [] && EncodeForTls(data) == Ok(frame) {
      HeaderFields(HEADER_LEN + |data|, |data|, data);
    }
    if DecodeFromTlsFrame(frame) == Ok(data) {
      HeaderFromFields(frame);
    }
  }
}
