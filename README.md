# msocks SOCKS5 negotiation and tunnel handshake, in Dafny

msocks is a Shadowsocks-like proxy. Its client side accepts SOCKS5
connections from local applications (RFC 1928: section 3 method selection,
section 4 requests, section 5 addressing, section 6 replies). It works out
the destination the application wants. It then opens the encrypted tunnel
to the relay with a single handshake message: size, IV, then the encrypted
"host:port".

The repository holds two copies of the negotiation:

- `client_session` (src/session/client_session.cpp)
  - checks the version, the method list and the command;
  - renders the destination as a "host:port" string;
  - sends the handshake.
- `detail::do_local_socks5` (src/utility/local_socks5.cpp)
  - checks only the command and the address type;
  - hands back the raw address descriptor (atyp, address, port) with an error code.

Both are modelled the same way:

- Each negotiator is a **specification function** of the finite byte
  sequence the client sends.
- The source's step-by-step code is an **imperative method** over a
  `Stream.Socket`, proved to follow that function.
  - A `Socket` holds the incoming bytes, a read cursor, and the bytes written back.
  - Reads are exact-length: they either deliver the requested count, or
    end the stream and fail as an I/O error.

Modules:

- `Bytes`: bytes, the big-endian and native-order 16-bit fields, and sequence reversal.
- `TextFormat`: decimal and dotted-quad rendering, "host:port", and the parsers that read them back.
- `Socks5`: the RFC 1928 constants and the outcome of a negotiation step.
  - Outcomes are `Accepted`, `Refused`, or `ShortInput`. `ShortInput` is the end of stream inside an exact read.
  - The module also defines the link (`Performed`) between an outcome and a socket's cursor and written bytes.
- `Stream`: the accepted local socket, as a class.
- `ClientNegotiation`:
  - `Auth`, `Request` and `Negotiate`: the checks and decoding of `do_socks5_auth`, `do_get_proxy_addr` and `do_local_socks5` as functions, with their properties;
  - the `find_auth` scan as a loop.
- `Handshake`:
  - the stream cipher as an abstract keystream XORed with the data;
  - the 16-bit size field;
  - the tunnel-open message and its framing.
- `Session`: the `client_session` class.
  - Its negotiation methods work on the socket.
  - `send_handshake` encrypts the destination in place in a buffer.
  - `start` runs up to the point where forwarding begins.
- `LocalSocks5`: `detail::do_local_socks5`.
  - It reads through a reused 258-byte scratch array.
  - It builds the result vector by push and copy.
- `Agreement`: how the two negotiators relate, and the IPv6 address-order finding.

Foreign calls are parameters of the model:

- **Salsa20** is a keystream function `(key, iv, index) -> byte`.
- **The random pool** is the 8-byte block it produces.
- **`make_address_v6(...).to_string()`** is a formatter from 16 bytes to at most 45 characters.
- **The outcome of connecting to the relay and of writing the handshake** is a pair of booleans.
- **The host's byte order** is a boolean.

The method `Session.ClientSession.Start` is proved for every value of these.

## Model

| member | source | states |
|---|---|---|
| ClientNegotiation.Auth | src/session/client_session.cpp:17-69 | do_socks5_auth over the bytes the client sends: a stream ending inside the 2-byte header or the n_method bytes is an I/O failure having written nothing; otherwise 2 + n bytes are read and the result is acceptance with (5, 0) written if a method byte is 0, refusal with nothing written if not; a completed run never reads past the input |
| ClientNegotiation.Request | src/session/client_session.cpp:71-211 | do_get_proxy_addr: refusal after the 4-byte header for version ≠ 5, cmd ≠ CONNECT or an unknown atyp; otherwise the address read by type and rendered as "host:port" with the 10-byte reply; a stream ending inside any read is an I/O failure having written nothing; a completed run never reads past the input |
| ClientNegotiation.Negotiate | src/session/client_session.cpp:213-225 | do_local_socks5: auth, then the request only after an accepted auth, with the request's reads and writes following auth's; a completed run never reads past the input |
| ClientNegotiation.Ipv4Destination | src/session/client_session.cpp:128-130 | dotted quad of the 4 wire-order address bytes, ":", decimal of the big-endian port; at most 21 characters |
| ClientNegotiation.Ipv6Host | src/session/client_session.cpp:152-153 | the formatter's text of the 16 address bytes after reversal; at most 45 characters for a bounded formatter |
| ClientNegotiation.Ipv6Destination | src/session/client_session.cpp:152-155 | that host, ":", decimal of the big-endian port; at most 51 characters for a bounded formatter |
| ClientNegotiation.DomainDestination | src/session/client_session.cpp:173-179 | the L name bytes verbatim, ":", decimal of the big-endian port held in the last 2 bytes; at most L + 6 characters |
| ClientNegotiation.AuthNeedsAll | src/session/client_session.cpp:25-38 | a stream that ends before auth's last byte is an I/O failure, never a refusal or an acceptance |
| ClientNegotiation.RequestNeedsAll | src/session/client_session.cpp:82-172 | a stream that ends before the request's last byte is an I/O failure, never a refusal or an acceptance |
| ClientNegotiation.NegotiateNeedsAll | src/session/client_session.cpp:213-225 | a stream that ends anywhere before the negotiation's last byte is an I/O failure, never a refusal or an acceptance |
| TextFormat.Decimal | src/session/client_session.cpp:130 | `std::to_string` of a non-negative number: at least one ASCII digit, a leading 0 only for zero |
| TextFormat.DottedQuad | src/session/client_session.cpp:128 | `address_v4::to_string` of 4 bytes in network order: decimal octets separated by dots, at most 15 characters |
| TextFormat.HostPort | src/session/client_session.cpp:129-130 | the host, then ":", then at least one more byte (the port's decimal text) |
| Handshake.Process | src/session/client_session.cpp:300 | `ProcessString` under a cipher state: each byte XORed with the keystream from the state's offset; the output has the input's length |
| Handshake.Message | src/session/client_session.cpp:301-307 | the one message to the relay, size field ‖ IV ‖ encrypted destination: 2 + \|iv\| + \|dest\| bytes |
| Session.AuthReport | src/session/client_session.cpp:50-68 | do_socks5_auth's result: the thrown system_error exactly on an I/O failure, otherwise true exactly on acceptance |
| Session.AddrReport | src/session/client_session.cpp:213-225 | do_local_socks5's result: the thrown system_error exactly on an I/O failure, otherwise (true, "host:port") on acceptance and (false, "") on refusal |
| LocalSocks5.AddressPart | src/utility/local_socks5.cpp:84-107 | the switch on atyp: the result starts with atyp; IPv4 and IPv6 copy 6 and 18 bytes, a domain its length byte and L + 2 bytes, then the 10-byte reply is written; end of stream keeps what was pushed; an unknown atyp is address_not_supported; never reads past the input |
| LocalSocks5.Negotiate | src/utility/local_socks5.cpp:19-114 | detail::do_local_socks5 over the bytes the client sends: the handler's error code and result, the bytes read (never past the input) and the bytes written |
| LocalSocks5.NeedsAll | src/utility/local_socks5.cpp:71-100 | a stream that ends anywhere before a run's last byte ends it with the end-of-stream error, whatever the run would have been |
| ClientNegotiation.FindNoAuth | src/session/client_session.cpp:40-48 | the flag loop with `break` ends true exactly when no-auth (0) is among the offered method bytes |
| ClientNegotiation.AuthAcceptsIffNoAuthOffered | src/session/client_session.cpp:25-68 | once header and methods have arrived, auth succeeds iff one of the n_method bytes after the 2-byte header is 0; success consumes 2 + n and writes exactly (5, 0), failure consumes 2 + n and writes nothing |
| ClientNegotiation.AuthIgnoresVersion | src/session/client_session.cpp:19-30 | changing the header's version byte never changes the auth outcome |
| ClientNegotiation.AuthReadsExactly | src/session/client_session.cpp:25-38 | a completed auth reads exactly its consumed count: bytes after it do not change the outcome |
| ClientNegotiation.RequestChecksVersionAndCommand | src/session/client_session.cpp:89-104 | an accepted request has version 5 and cmd CONNECT; version ≠ 5 or any other cmd (bind, UDP, unknown) is refused after the 4-byte header with no reply |
| ClientNegotiation.RequestRejectsUnknownAddressType | src/session/client_session.cpp:181-185 | an atyp other than 1, 3, 4 is refused after the header with no reply |
| ClientNegotiation.RequestIpv4 | src/session/client_session.cpp:108-131 | IPv4 consumes 4 + 6 bytes; the destination splits at its last colon into a dotted quad that parses back to the 4 address bytes in wire order and the port b4 * 256 + b5 |
| ClientNegotiation.RequestIpv6 | src/session/client_session.cpp:132-156 | IPv6 consumes 4 + 18 bytes; the destination splits into the formatter's text of the 16 address bytes reversed and the big-endian port |
| ClientNegotiation.RequestDomain | src/session/client_session.cpp:157-180 | a domain request consumes 4 + 1 + L + 2 bytes; the destination splits into the L name bytes verbatim and the big-endian trailing port |
| ClientNegotiation.RequestReplies | src/session/client_session.cpp:187-210 | every accepted request writes the same 10 bytes 05 00 00 01 00 00 00 00 00 00; a refused one writes nothing |
| ClientNegotiation.RequestReadsExactly | src/session/client_session.cpp:82-180 | a completed request reads exactly its consumed count |
| ClientNegotiation.NegotiateStopsAfterRefusedAuth | src/session/client_session.cpp:214-225 | without no-auth the negotiation is refused right after the method list, reading no request and writing nothing |
| ClientNegotiation.NegotiateReplies | src/session/client_session.cpp:56-210 | an accepted negotiation wrote (5, 0) and then the 10-byte reply; a refused one wrote nothing or only (5, 0) |
| ClientNegotiation.NegotiateReadsExactly | src/session/client_session.cpp:214-225 | a completed negotiation reads exactly auth's and the request's bytes, nothing more |
| ClientNegotiation.DestinationLength | src/session/client_session.cpp:106-180 | any destination the parser produces has at most 255 + 1 + 5 characters |
| ClientNegotiation.ConnectToLoopback | src/session/client_session.cpp:17-225 | 05 01 00 then 05 01 00 01 7F 00 00 01 00 50 yields "127.0.0.1:80", consuming all 13 bytes and writing (5, 0) and the 10-byte reply |
| TextFormat.DecimalRoundTrip | src/session/client_session.cpp:130 | `std::to_string` of a port reads back as the same number |
| TextFormat.PortWidth | src/session/client_session.cpp:130 | the decimal text of a 16-bit port has at most 5 digits |
| TextFormat.DottedQuadRoundTrip | src/session/client_session.cpp:128 | the dotted-quad text of 4 bytes parses back to the same 4 bytes |
| TextFormat.HostPortRoundTrip | src/session/client_session.cpp:129-130 | "host" + ":" + decimal(port) splits at its last colon back into host and port, whatever colons the host holds |
| TextFormat.HostPortLength | src/session/client_session.cpp:129-130 | "host:port" is at most 6 bytes longer than the host |
| Bytes.BigEndianU16 | src/session/client_session.cpp:130 | `big_to_native` of the 2 wire bytes of a port is a 16-bit value |
| Bytes.NativeU16 | src/session/client_session.cpp:301-304 | the 2-byte host-order field of a 16-bit value has length 2 and reads back to the value in either byte order |
| Handshake.XorBitsCancels | src/session/client_session.cpp:300 | XOR of a value with the same key twice gives the value back |
| Handshake.ProcessInverts | src/session/client_session.cpp:297-300 | processing with a state seeded from (key, iv) inverts processing with the same state: the relay's decrypt recovers the destination |
| Handshake.ProcessInPieces | src/session/client_session.cpp:300 | processing a + b in one call equals processing a, then b from the advanced state |
| Handshake.ProcessString | src/session/client_session.cpp:300 | encrypting in place leaves the buffer holding the processed bytes and advances the state by the buffer's length |
| Handshake.SizeField | src/session/client_session.cpp:301 | the u16 size is below 65536 and equals 8 + \|dest\| whenever that fits |
| Handshake.MessageFraming | src/session/client_session.cpp:292-308 | the message is 2 + 8 + \|dest\| bytes; its size field announces exactly the bytes after it; then comes the IV; then the ciphertext, which decrypts with (key, IV) back to the destination |
| Session.ClientSession.constructor | src/session/client_session.cpp:258-268 | a new session has an 8-byte IV (contents unspecified: the given block), no cipher states, no relay connection and nothing sent |
| Session.ClientSession.DoSocks5Auth | src/session/client_session.cpp:17-69 | reads, writes and returns exactly what `Auth` says, or fails as an I/O error having consumed the stream |
| Session.ClientSession.DoGetProxyAddr | src/session/client_session.cpp:71-211 | reads, writes and returns (success, "host:port") exactly as `Request` says |
| Session.ClientSession.DoLocalSocks5 | src/session/client_session.cpp:213-225 | reads, writes and returns exactly as `Negotiate` says; the request is read only after a successful auth |
| Session.ClientSession.SendHandshake | src/session/client_session.cpp:292-308 | the IV is the random block; both cipher states are seeded from (key, IV); encrypt is advanced past the destination; a successful write appends exactly `Message(...)` to the relay stream |
| Session.ClientSession.Start | src/session/client_session.cpp:227-256 | the socket follows `Negotiate`; the relay is connected iff negotiation succeeded and the connect did; forwarding starts iff the handshake was also written; the relay then received one message whose size field equals its remaining length and whose next 8 bytes are the session IV; otherwise nothing was sent |
| Stream.Socket.Read | src/session/client_session.cpp:25-30 | an exact read returns the next n bytes and advances n, or fails having consumed the rest of the stream |
| Stream.Socket.ReadInto | src/utility/local_socks5.cpp:72 | a read into a buffer prefix fills buf[..n] with the next n bytes and leaves the rest of buf alone, or stores what arrived and fails |
| Stream.Socket.Write | src/session/client_session.cpp:62-67 | a write appends the bytes to what the client has received |
| LocalSocks5.AppendFrom | src/utility/local_socks5.cpp:88 | copying count bytes of temp through a back inserter yields result + temp[..count] |
| LocalSocks5.ReadAddress | src/utility/local_socks5.cpp:84-107 | pushes atyp, reads the address into temp (every read fits the 258 bytes, L + 2 ≤ 257), appends it and sends the 10-byte reply exactly as `AddressPart` says |
| LocalSocks5.DoLocalSocks5 | src/utility/local_socks5.cpp:19-114 | the handler's (ec, result), the bytes read and the bytes written are exactly those of `Negotiate`; it returns once on every path, the handler's single call |
| LocalSocks5.IgnoresVersionsAndMethods | src/utility/local_socks5.cpp:71-74 | the run depends on neither the auth version, nor the method bytes, nor the request version: only on n_method |
| LocalSocks5.AuthReplyAlwaysWritten | src/utility/local_socks5.cpp:71-73 | once n_method bytes have arrived, (5, 0) is written, offered methods notwithstanding |
| LocalSocks5.RejectsOtherCommands | src/utility/local_socks5.cpp:75-83 | any cmd but CONNECT ends with cmd_not_supported, an empty result, 2 + n + 4 bytes read and only (5, 0) written |
| LocalSocks5.AddressPartCopiesDescriptor | src/utility/local_socks5.cpp:84-102 | on success the address part is atyp followed by the bytes read verbatim: 7 bytes for IPv4, 19 for IPv6, L + 4 for a domain |
| LocalSocks5.SuccessCopiesDescriptor | src/utility/local_socks5.cpp:84-107 | on success the result is exactly the input from atyp to the end of the request (length 7, 19 or L + 4) and (5, 0) then the 10-byte reply were written |
| LocalSocks5.UnsupportedAddressKeepsAtyp | src/utility/local_socks5.cpp:84-106 | an unknown atyp ends with address_not_supported, result [atyp], no 10-byte reply |
| LocalSocks5.ConnectReplyOnlyOnSuccess | src/utility/local_socks5.cpp:107-113 | the 10-byte reply is written iff the error code is success; otherwise at most (5, 0) was written |
| LocalSocks5.ResultIsPrefixOfDescriptor | src/utility/local_socks5.cpp:84-113 | on every path the result is a verbatim slice of the input starting at atyp; a run cut by the end of stream consumed it all and kept at most atyp and the length byte |
| Agreement.RequestsAgree | src/utility/local_socks5.cpp:84-107 | for every request the client session accepts, the address part of do_local_socks5 succeeds reading and writing the same bytes; the descriptor renders to the client's destination (IPv6: after reversal) |
| Agreement.ParsersAgree | src/session/client_session.cpp:17-225 | whatever the client session accepts, do_local_socks5 accepts with the same bytes read and written; its IPv4 or domain descriptor renders to the client's "host:port", and for IPv6 the client's host is the rendering of the reversed address |
| Agreement.ClientAcceptsWhenChecksPass | src/utility/local_socks5.cpp:71-75 | when do_local_socks5 succeeds, the client session accepts the same bytes iff no-auth was offered and the request version is 5 |
| Agreement.Ipv6WireOrderNamesAddress | src/session/client_session.cpp:152-155 | the IPv6 destination built from the bytes in network order reads back as the formatter's text of the address as sent, and equals the descriptor's rendering |
| Agreement.Ipv6ReversalMisnamesAddress | src/session/client_session.cpp:152-153 | as written, a request for [2001:db8::1]:80 yields a host that is not the text of 2001:db8::1 under any formatter that tells addresses apart |

## Left out

- Forwarding loops `do_forward_local_to_remote` and `do_forward_remote_to_local` are out. So are `spawn`, `shared_from_this` and the socket-close teardown. This is coroutine I/O whose point is concurrent teardown; their start is the flag `forwarding`.
- `include/msocks/utility/socket_pair.hpp`, `src/utility/socket_pair.hpp` and `include/shadowsocks/stream.h` are not part of this model. They are byte pumps and wrappers with no protocol logic.
- `include/msocks/endpoint/server_endpoint.hpp` is not part of this model. It is only a configuration struct and a declaration.
- Salsa20 is not modelled: it is a foreign call. The model has an abstract keystream XORed with the data, which keeps it length-preserving and invertible.
- `AutoSeededRandomPool` is not modelled. It becomes its 8-byte output, a parameter.
- `ip::make_address_v6(...).to_string()` is not modelled. It becomes a formatter parameter bounded to 45 characters, the longest IPv6 text form.
- `make_address_v4(...).to_string()` is modelled as the dotted-decimal rendering of the four bytes in network order.
- The host byte order of the size field is a boolean parameter. Both orders are modelled concretely.
- Connecting to the relay (`async_connect`) is not modelled. Its result is a boolean parameter, and the relay address is configuration that plays no part in the model.
- Session.ClientSession.SendHandshake: a failed handshake write is modelled as sending nothing. How much of the message had gone out before the error is not modelled.
- Writes to the local socket always succeed. A failing auth or connect reply write, which the source would throw as an I/O error, is not modelled.
- LocalSocks5.DoLocalSocks5: the error code of a failed read is the single value `EndOfStream`. Other socket errors are not distinguished.
- LocalSocks5.DoLocalSocks5: `post(strand, handler)` is modelled as returning the handler's arguments. The strand and its scheduling are out.
- `async_local_socks5` is left out: coroutine plumbing around `detail::do_local_socks5`.
- Logging is left out.
- After the handshake both cipher states share one (key, IV); the relay's two directions use the same keystream. This is recorded in `SendHandshake`'s contract but not analysed further.
- The documented behaviour decodes IPv6 addresses into their RFC textual form, but the code reverses the bytes first. The model follows the code (`ClientNegotiation.Ipv6Host`), and the finding below records the difference.

## Findings

| source | as written | input that shows it | evidently intended | confidence | as-written member | corrected member |
|---|---|---|---|---|---|---|
| src/session/client_session.cpp:152 | the 16 IPv6 address bytes, already in network order as `address_v6::bytes_type` expects, are reversed before `make_address_v6`, so the session connects the tunnel to another address | request 05 01 00 04 20 01 0d b8 00 00 00 00 00 00 00 00 00 00 00 01 00 50 ([2001:db8::1]:80) gives host "100::b80d:120" | format the address bytes as received, so the host names the requested address and matches do_local_socks5's descriptor | not executed | Agreement.Ipv6ReversalMisnamesAddress | Agreement.Ipv6WireOrderNamesAddress |
