/** SOCKS5 protocol constants (RFC 1928, sections 3 to 6) and the outcome
    of running a negotiation over a finite byte stream. */
module Socks5 {
  import opened Bytes

  const SOCKS5_VERSION: Byte := 5
  const AUTH_NO_AUTH: Byte := 0
  const CONN_TCP: Byte := 1
  const ADDR_IPV4: Byte := 1
  const ADDR_DOMAIN: Byte := 3
  const ADDR_IPV6: Byte := 4

  /** Bytes after the 4-byte request header for the fixed-width address types:
      address and 2-byte port. */
  const IPV4_BODY: nat := 32 / 8 + 2
  const IPV6_BODY: nat := 128 / 8 + 2

  /** The method-selection reply: version 5, "no authentication required". */
  const AUTH_REPLY: Bytes := [SOCKS5_VERSION, AUTH_NO_AUTH]

  /** The connect reply: succeeded, bound address 0.0.0.0, bound port 0. */
  const SUCCESS_REPLY: Bytes := [SOCKS5_VERSION, 0, 0, ADDR_IPV4, 0, 0, 0, 0, 0, 0]

  /** What a negotiation step does with the bytes a client sends:
      - Accepted: it read exactly `consumed` bytes, wrote `reply`, and yields `value`;
      - Refused: a protocol check failed after `consumed` bytes; `reply` is all it wrote;
      - ShortInput: the stream ended inside an exact-length read (an I/O error);
        every byte was consumed and `reply` is what was written before. */
  datatype Outcome<T> =
    | Accepted(value: T, consumed: nat, reply: Bytes)
    | Refused(consumed: nat, reply: Bytes)
    | ShortInput(reply: Bytes)

  /** The outcome of a step that ran after `consumed` bytes were read and
      `reply` was written by the steps before it. */
  function After<T>(o: Outcome<T>, consumed: nat, reply: Bytes): Outcome<T>
  {
    match o
    case Accepted(v, c, w) => Accepted(v, consumed + c, reply + w)
    case Refused(c, w) => Refused(consumed + c, reply + w)
    case ShortInput(w) => ShortInput(reply + w)
  }

  /** A socket whose read cursor went from `pos0` to `pos1` (of `total` bytes
      the peer sends) and whose written bytes went from `sent0` to `sent1` did
      what outcome `o` says. */
  ghost predicate Performed<T>(o: Outcome<T>, pos0: nat, sent0: Bytes, pos1: nat, sent1: Bytes, total: nat)
  {
    match o
    case Accepted(_, c, w) => pos1 == pos0 + c && sent1 == sent0 + w
    case Refused(c, w) => pos1 == pos0 + c && sent1 == sent0 + w
    case ShortInput(w) => pos1 == total && sent1 == sent0 + w
  }
}
