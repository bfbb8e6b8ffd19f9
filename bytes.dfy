/** Octets, octet strings and the two 16-bit encodings the proxy uses:
    network order (SOCKS5 ports) and host order (the handshake size field). */
module Bytes {

  /** One octet as read from or written to a socket. */
  type Byte = b: int | 0 <= b < 256

  /** A std::vector<uint8_t>, or a std::string seen as the octets it holds. */
  type Bytes = seq<Byte>

  datatype Option<T> = None | Some(value: T)

  /** Value of a 16-bit field sent in network (big-endian) order. */
  function BigEndianU16(b: Bytes): (v: nat)
    requires |b| == 2
    ensures v < 0x1_0000
  {
    (b[0] as int) * 256 + b[1] as int
  }

  /** A 16-bit value as the host lays it out in memory: low byte first on a
      little-endian host, high byte first otherwise. The reader on the other
      end recovers the value when it uses the same byte order. */
  function NativeU16(v: nat, littleEndian: bool): (b: Bytes)
    requires v < 0x1_0000
    ensures |b| == 2
    ensures ReadNativeU16(b, littleEndian) == v
  {
    if littleEndian then [v % 256, v / 256] else [v / 256, v % 256]
  }

  /** Value of a 16-bit field stored in host order. */
  function ReadNativeU16(b: Bytes, littleEndian: bool): nat
    requires |b| == 2
  {
    if littleEndian then (b[1] as int) * 256 + b[0] as int else BigEndianU16(b)
  }

  /** A prefix is its first element followed by a prefix of the rest. */
  lemma PrefixOfTail(s: Bytes, n: nat)
    requires 1 <= n <= |s|
    ensures s[..n] == [s[0]] + s[1..][..n - 1]
  {
    assert s[1..][..n - 1] == s[1..n];
  }

  /** Cutting s after a + r bytes and appending extra puts the first a
      bytes of s in front of the next r bytes and extra. */
  lemma CutAfter(s: Bytes, a: nat, r: nat, extra: Bytes)
    requires a + r <= |s|
    ensures s[..a + r] + extra == s[..a] + (s[a..][..r] + extra)
    ensures (s[..a + r] + extra)[a..] == s[a..][..r] + extra
  {
    assert s[..a + r] == s[..a] + s[a..][..r];
  }

  /** std::reverse applied to a copy of the sequence. */
  function Reversed(s: Bytes): Bytes
  {
    seq(|s|, i requires 0 <= i < |s| => s[|s| - 1 - i])
  }
}
