/** The tunnel-open message of send_handshake (client_session.cpp) and the
    stream cipher it uses. The cipher (Salsa20 in the source) is modelled by
    its keystream: byte i of the keystream for a key and IV is an abstract
    function, and processing XORs data with the keystream from the state's
    current offset, so it preserves length and advances the state by
    exactly the number of bytes processed. */
module Handshake {
  import opened Bytes

  /** iv(8) in the client_session constructor. */
  const IV_SIZE: nat := 8

  /** Byte i of the keystream for (key, iv). */
  type Keystream = (Bytes, Bytes, nat) -> Byte

  /** A running cipher state: the (key, iv) it was seeded with and how many
      keystream bytes it has used. */
  datatype CipherState = CipherState(key: Bytes, iv: Bytes, offset: nat)

  /** SetKeyWithIV: a fresh state at the start of the keystream. */
  function Seeded(key: Bytes, iv: Bytes): CipherState
  {
    CipherState(key, iv, 0)
  }

  function Pow2(n: nat): (p: nat)
    ensures p >= 1
  {
    if n == 0 then 1 else 2 * Pow2(n - 1)
  }

  /** Bitwise exclusive or of the low `bits` bits of a and b. */
  function XorBits(a: nat, b: nat, bits: nat): (r: nat)
    ensures r < Pow2(bits)
  {
    if bits == 0 then 0
    else (if a % 2 == b % 2 then 0 else 1) + 2 * XorBits(a / 2, b / 2, bits - 1)
  }

  /** XOR-ing twice with the same value gives back the original. */
  lemma {:induction false} XorBitsCancels(a: nat, k: nat, bits: nat)
    requires a < Pow2(bits)
    ensures XorBits(XorBits(a, k, bits), k, bits) == a
  {
    if bits > 0 {
      var low := if a % 2 == k % 2 then 0 else 1;
      var high := XorBits(a / 2, k / 2, bits - 1);
      var x := low + 2 * high;
      assert x == XorBits(a, k, bits);
      assert x % 2 == low && x / 2 == high;
      XorBitsCancels(a / 2, k / 2, bits - 1);
      assert XorBits(x, k, bits) == (if low == k % 2 then 0 else 1) + 2 * (a / 2);
    }
  }

  /** One byte of keystream applied to one byte of data. */
  function Xor(a: Byte, k: Byte): Byte
  {
    assert Pow2(8) == 256;
    XorBits(a, k, 8)
  }

  lemma XorCancels(a: Byte, k: Byte)
    ensures Xor(Xor(a, k), k) == a
  {
    XorBitsCancels(a, k, 8);
    assert Pow2(8) == 256;
  }

  /** ProcessString: the bytes data turns into under state st. */
  function Process(ks: Keystream, st: CipherState, data: Bytes): (out: Bytes)
    ensures |out| == |data|
  {
    seq(|data|, i requires 0 <= i < |data| => Xor(data[i], ks(st.key, st.iv, st.offset + i)))
  }

  /** The state after n more bytes went through it. */
  function Advanced(st: CipherState, n: nat): CipherState
  {
    st.(offset := st.offset + n)
  }

  /** A state seeded like the encrypting one, at the same offset, recovers
      the plaintext: this is what the relay does with the handshake. */
  lemma ProcessInverts(ks: Keystream, st: CipherState, data: Bytes)
    ensures Process(ks, st, Process(ks, st, data)) == data
  {
    var once := Process(ks, st, data);
    forall i | 0 <= i < |data|
      ensures Process(ks, st, once)[i] == data[i]
    {
      XorCancels(data[i], ks(st.key, st.iv, st.offset + i));
    }
  }

  /** Processing a buffer in two calls gives the same bytes as one call:
      the keystream position carries over from the first to the second. */
  lemma ProcessInPieces(ks: Keystream, st: CipherState, a: Bytes, b: Bytes)
    ensures Process(ks, st, a + b) == Process(ks, st, a) + Process(ks, Advanced(st, |a|), b)
  {
  }

  /** encrypt.ProcessString(buffer, size) over a buffer in place. */
  method ProcessString(ks: Keystream, st: CipherState, buf: array<Byte>) returns (next: CipherState)
    modifies buf
    ensures buf[..] == Process(ks, st, old(buf[..]))
    ensures next == Advanced(st, buf.Length)
  {
    forall i | 0 <= i < buf.Length {
      buf[i] := Xor(buf[i], ks(st.key, st.iv, st.offset + i));
    }
    next := Advanced(st, buf.Length);
  }

  /** uint16_t size = iv.size() + addr_port.size(): truncated to 16 bits. */
  function SizeField(destLength: nat): (size: nat)
    ensures size < 0x1_0000
    ensures IV_SIZE + destLength < 0x1_0000 ==> size == IV_SIZE + destLength
  {
    (IV_SIZE + destLength) % 0x1_0000
  }

  /** The single message sent to the relay: size (host byte order), the
      IV, then the destination encrypted from the start of the keystream. */
  function Message(ks: Keystream, key: Bytes, iv: Bytes, dest: Bytes, littleEndian: bool): (m: Bytes)
    ensures |m| == 2 + |iv| + |dest|
  {
    NativeU16(SizeField(|dest|), littleEndian) + iv + Process(ks, Seeded(key, iv), dest)
  }

  /** For a destination short enough that the size does not wrap, the
      relay can take the message apart: the size field announces exactly
      the bytes that follow, the next eight are the IV, and decrypting the
      rest with a state seeded from (key, IV) gives back the destination. */
  lemma MessageFraming(ks: Keystream, key: Bytes, iv: Bytes, dest: Bytes, littleEndian: bool)
    requires |iv| == IV_SIZE && IV_SIZE + |dest| < 0x1_0000
    ensures var m := Message(ks, key, iv, dest, littleEndian);
      && |m| == 2 + IV_SIZE + |dest|
      && ReadNativeU16(m[..2], littleEndian) == |m| - 2
      && m[2..2 + IV_SIZE] == iv
      && |m[2 + IV_SIZE..]| == |dest|
      && Process(ks, Seeded(key, m[2..2 + IV_SIZE]), m[2 + IV_SIZE..]) == dest
  {
    var m := Message(ks, key, iv, dest, littleEndian);
    var size := NativeU16(SizeField(|dest|), littleEndian);
    var enc := Process(ks, Seeded(key, iv), dest);
    assert m == size + iv + enc;
    assert m[..2] == size;
    assert m[2..2 + IV_SIZE] == iv;
    assert m[2 + IV_SIZE..] == enc;
    ProcessInverts(ks, Seeded(key, iv), dest);
  }
}
