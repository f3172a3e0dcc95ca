/** Bytes, big-endian 16-bit fields, errors and the result type shared by the other modules. */
module Bytes {
  type byte = bv8

  /** The bytes of one PPP packet, starting with its protocol number. */
  type Packet = seq<byte>

  datatype IoErrorKind = WouldBlock | TimedOut | UnexpectedEof | OtherIo

  datatype Error =
    | HdlcNoFrameFound
    | HdlcInvalidFrame
    | HdlcBadChecksum
    | PermissionDenied
    | Pppd(reason: string)
    | Network(reason: string)
    | Io(kind: IoErrorKind)

  datatype Option<+T> = None | Some(value: T)

  datatype Result<+T> = Ok(value: T) | Err(error: Error)

  function U16(hi: byte, lo: byte): (n: nat)
    ensures n < 0x1_0000
  {
    hi as int * 256 + lo as int
  }

  lemma ByteOfIntUnique(n: nat, b: byte)
    requires n < 256 && b as int == n
    ensures n as byte == b
  {
  }

  lemma IncrementByte(b: byte)
    requires b as int < 255
    ensures (b + 1) as int == b as int + 1
  {
  }

  lemma {:induction false} ByteOfInt(n: nat)
    requires n < 256
    ensures (n as byte) as int == n
  {
    if n > 0 {
      ByteOfInt(n - 1);
      var b := (n - 1) as byte;
      IncrementByte(b);
      ByteOfIntUnique(n, b + 1);
    }
  }

  lemma DigitsOf(high: nat, low: nat)
    requires low < 256
    ensures (high * 256 + low) / 256 == high && (high * 256 + low) % 256 == low
  {
  }

  /** The big-endian bytes of a 16-bit value; a wider value is truncated, as by a cast to 16 bits. */
  function BeBytes(n: nat): (s: seq<byte>)
    ensures |s| == 2
    ensures U16(s[0], s[1]) == n % 0x1_0000
  {
    var m := n % 0x1_0000;
    ByteOfInt(m / 256);
    ByteOfInt(m % 256);
    [(m / 256) as byte, (m % 256) as byte]
  }

  lemma BeBytesByDigits(n: nat, high: nat, low: nat)
    requires high == n % 0x1_0000 / 256 && low == n % 0x1_0000 % 256
    ensures BeBytes(n) == [high as byte, low as byte]
  {
  }

  lemma DigitsOf16(high: nat, low: nat)
    requires high < 256 && low < 256
    ensures
      var n := high * 256 + low;
      n % 0x1_0000 / 256 == high && n % 0x1_0000 % 256 == low
  {
    var n := high * 256 + low;
    assert n < 0x1_0000 && n % 0x1_0000 == n;
    DigitsOf(high, low);
  }

  lemma BeBytesOfDigits(high: nat, low: nat)
    requires high < 256 && low < 256
    ensures BeBytes(high * 256 + low) == [high as byte, low as byte]
  {
    hide BeBytes;
    DigitsOf16(high, low);
    BeBytesByDigits(high * 256 + low, high, low);
  }

  lemma BeBytesOfU16(hi: byte, lo: byte)
    ensures BeBytes(U16(hi, lo)) == [hi, lo]
  {
    hide BeBytes;
    BeBytesOfDigits(hi as int, lo as int);
    ByteOfIntUnique(hi as int, hi);
    ByteOfIntUnique(lo as int, lo);
  }

  /** The byte that counts 256 comes first. */
  lemma BigEndian(n: nat)
    requires n < 0x1_0000
    ensures BeBytes(n)[0] as int == n / 256 && BeBytes(n)[1] as int == n % 256
    ensures 256 * BeBytes(n)[0] as int + BeBytes(n)[1] as int == n
  {
    hide BeBytes;
    var high, low := n / 256, n % 256;
    assert n == high * 256 + low;
    BeBytesOfDigits(high, low);
    ByteOfInt(high);
    ByteOfInt(low);
  }

  lemma SnocOf<T>(s: seq<T>)
    requires s != []
    ensures s == s[..|s| - 1] + [s[|s| - 1]]
  {
  }

  lemma AppendSnoc<T>(a: seq<T>, b: seq<T>)
    requires b != []
    ensures a + b == a + b[..|b| - 1] + [b[|b| - 1]]
  {
  }

  lemma AppendAssoc<T>(a: seq<T>, b: seq<T>, c: seq<T>)
    ensures a + (b + c) == a + b + c
  {
  }

  lemma AppendEmpty<T>(a: seq<T>, b: seq<T>)
    requires b == []
    ensures a + b == a
  {
  }

  function Flatten<T>(parts: seq<seq<T>>): seq<T> {
    if parts == [] then [] else Flatten(parts[..|parts| - 1]) + parts[|parts| - 1]
  }

  lemma {:induction false} FlattenConcat<T>(a: seq<seq<T>>, b: seq<seq<T>>)
    ensures Flatten(a + b) == Flatten(a) + Flatten(b)
  {
    if b == [] {
      assert a + b == a;
    } else {
      var init, last := b[..|b| - 1], b[|b| - 1];
      assert (a + b)[..|a + b| - 1] == a + init && (a + b)[|a + b| - 1] == last;
      FlattenConcat(a, init);
      AppendAssoc(Flatten(a), Flatten(init), last);
    }
  }
}
