/** The SOCKS5 negotiation of src/session/client_session.cpp as functions of
    the bytes the client sends: method selection (do_socks5_auth), the
    connect request (do_get_proxy_addr) and their composition
    (do_local_socks5). The class Session.ClientSession runs the same steps
    against a socket and is proved to follow these functions. */
module ClientNegotiation {
  import opened Bytes
  import opened TextFormat
  import opened Socks5

  /** ip::make_address_v6(bytes).to_string(): the text of a 16-byte IPv6
      address handed over in network order. Library formatting, kept
      abstract. */
  type Ipv6Formatter = Bytes -> Bytes

  /** The text of an IPv6 address never exceeds 45 characters
      (INET6_ADDRSTRLEN without its terminator). */
  ghost predicate BoundedFormatter(fmt: Ipv6Formatter)
  {
    forall a :: |fmt(a)| <= 45
  }

  /** The find_auth scan over the offered methods, stopping at the first
      "no authentication required". */
  method FindNoAuth(methods: Bytes) returns (found: bool)
    ensures found <==> AUTH_NO_AUTH in methods
  {
    found := false;
    for i := 0 to |methods|
      invariant !found && AUTH_NO_AUTH !in methods[..i]
    {
      if methods[i] == AUTH_NO_AUTH {
        found := true;
        break;
      }
      assert methods[..i + 1] == methods[..i] + [methods[i]];
    }
    assert !found ==> methods[..|methods|] == methods;
  }

  /** do_socks5_auth: a 2-byte header (version, n_method), then n_method
      method bytes; succeeds, replying (5, 0), when no-auth is offered. */
  function Auth(input: Bytes): (r: Outcome<()>)
    ensures !r.ShortInput? ==> r.consumed <= |input|
    ensures r.ShortInput? ==> r.reply == []
  {
    if |input| < 2 || |input| < 2 + input[1] as int then ShortInput([])
    else if AUTH_NO_AUTH in input[2..2 + input[1] as int] then Accepted((), 2 + input[1] as int, AUTH_REPLY)
    else Refused(2 + input[1] as int, [])
  }

  /** Destination of an IPv4 request: the dotted quad of the four address
      bytes, then the big-endian port. */
  function Ipv4Destination(body: Bytes): (d: Bytes)
    requires |body| == IPV4_BODY
    ensures |d| <= 15 + 1 + 5
  {
    HostPortLength(DottedQuad(body[..4]), BigEndianU16(body[4..]));
    HostPort(DottedQuad(body[..4]), BigEndianU16(body[4..]))
  }

  /** Host of an IPv6 request as client_session.cpp forms it: the sixteen
      address bytes are reversed before they are formatted. */
  function Ipv6Host(addr: Bytes, fmt: Ipv6Formatter): (h: Bytes)
    requires |addr| == 16
    ensures BoundedFormatter(fmt) ==> |h| <= 45
  {
    fmt(Reversed(addr))
  }

  /** Destination of an IPv6 request as client_session.cpp builds it. */
  function Ipv6Destination(body: Bytes, fmt: Ipv6Formatter): (d: Bytes)
    requires |body| == IPV6_BODY
    ensures BoundedFormatter(fmt) ==> |d| <= 45 + 1 + 5
  {
    HostPortLength(Ipv6Host(body[..16], fmt), BigEndianU16(body[16..]));
    HostPort(Ipv6Host(body[..16], fmt), BigEndianU16(body[16..]))
  }

  /** Destination of an IPv6 request with the address kept in network
      order, as section 5 of RFC 1928 lays it out and as the formatter
      expects it. */
  function Ipv6DestinationWireOrder(body: Bytes, fmt: Ipv6Formatter): Bytes
    requires |body| == IPV6_BODY
  {
    HostPort(fmt(body[..16]), BigEndianU16(body[16..]))
  }

  /** Destination of a domain request: the name bytes verbatim, then the
      big-endian port held in the last two bytes. */
  function DomainDestination(body: Bytes): (d: Bytes)
    requires |body| >= 2
    ensures |d| <= |body| - 2 + 1 + 5
  {
    HostPortLength(body[..|body| - 2], BigEndianU16(body[|body| - 2..]));
    HostPort(body[..|body| - 2], BigEndianU16(body[|body| - 2..]))
  }

  /** do_get_proxy_addr: a 4-byte header (version, cmd, reserved, atyp), then
      the address by type; replies with the fixed success reply. */
  function Request(input: Bytes, fmt: Ipv6Formatter): (r: Outcome<Bytes>)
    ensures !r.ShortInput? ==> r.consumed <= |input|
    ensures r.ShortInput? ==> r.reply == []
  {
    if |input| < 4 then ShortInput([])
    else if input[0] != SOCKS5_VERSION || input[1] != CONN_TCP then Refused(4, [])
    else
      var atyp, body := input[3], input[4..];
      if atyp == ADDR_IPV4 then
        if |body| < IPV4_BODY then ShortInput([])
        else Accepted(Ipv4Destination(body[..IPV4_BODY]), 4 + IPV4_BODY, SUCCESS_REPLY)
      else if atyp == ADDR_IPV6 then
        if |body| < IPV6_BODY then ShortInput([])
        else Accepted(Ipv6Destination(body[..IPV6_BODY], fmt), 4 + IPV6_BODY, SUCCESS_REPLY)
      else if atyp == ADDR_DOMAIN then
        if |body| < 1 || |body| < 1 + body[0] as int + 2 then ShortInput([])
        else Accepted(DomainDestination(body[1..1 + body[0] as int + 2]), 4 + 1 + body[0] as int + 2, SUCCESS_REPLY)
      else Refused(4, [])
  }

  /** do_local_socks5: the request is read only after a successful auth. */
  function Negotiate(input: Bytes, fmt: Ipv6Formatter): (r: Outcome<Bytes>)
    ensures !r.ShortInput? ==> r.consumed <= |input|
  {
    match Auth(input)
    case Accepted(_, c, w) => After(Request(input[c..], fmt), c, w)
    case Refused(c, w) => Refused(c, w)
    case ShortInput(w) => ShortInput(w)
  }

  // ---------------------------------------------------------------------
  // Method selection

  /** Once the header and the n_method bytes have arrived, auth succeeds
      exactly when one of those bytes is no-auth; it then consumed them all
      and replied (5, 0), and otherwise consumed them all and wrote nothing. */
  lemma AuthAcceptsIffNoAuthOffered(input: Bytes)
    requires 2 <= |input| && 2 + input[1] as int <= |input|
    ensures Auth(input).Accepted? <==>
      exists i :: 2 <= i < 2 + input[1] as int && input[i] == AUTH_NO_AUTH
    ensures Auth(input).Accepted? ==> Auth(input) == Accepted((), 2 + input[1] as int, [5, 0])
    ensures !Auth(input).Accepted? ==> Auth(input) == Refused(2 + input[1] as int, [])
  {
    var methods := input[2..2 + input[1] as int];
    if AUTH_NO_AUTH in methods {
      var j :| 0 <= j < |methods| && methods[j] == AUTH_NO_AUTH;
      assert input[2 + j] == AUTH_NO_AUTH;
    } else {
      forall i | 2 <= i < 2 + input[1] as int ensures input[i] != AUTH_NO_AUTH {
        assert input[i] == methods[i - 2];
      }
    }
  }

  /** The version byte of the method-selection header is never inspected. */
  lemma AuthIgnoresVersion(input: Bytes, v: Byte)
    requires 1 <= |input|
    ensures Auth(input[0 := v]) == Auth(input)
  {
    if 2 <= |input| && 2 + input[1] as int <= |input| {
      assert input[0 := v][2..2 + input[1] as int] == input[2..2 + input[1] as int];
    }
  }

  /** Auth reads exactly what it reports as consumed: whatever follows
      does not change it. */
  lemma AuthReadsExactly(input: Bytes, extra: Bytes)
    requires !Auth(input).ShortInput?
    ensures var c := Auth(input).consumed;
      c <= |input| && Auth(input[..c] + extra) == Auth(input)
  {
    var c := 2 + input[1] as int;
    var t := input[..c] + extra;
    assert t[1] == input[1];
    assert t[2..c] == input[2..c];
  }

  /** A stream that ends before auth's last byte is an I/O failure, never
      a refusal or an acceptance. */
  lemma AuthNeedsAll(input: Bytes, j: nat)
    requires !Auth(input).ShortInput? && j < Auth(input).consumed
    ensures Auth(input[..j]).ShortInput?
  {
  }

  // ---------------------------------------------------------------------
  // Connect request

  /** A wrong version, or any command other than CONNECT (BIND, UDP
      ASSOCIATE or an unknown value), is refused after the 4-byte header
      with nothing written. */
  lemma RequestChecksVersionAndCommand(input: Bytes, fmt: Ipv6Formatter)
    requires 4 <= |input|
    ensures Request(input, fmt).Accepted? ==> input[0] == SOCKS5_VERSION && input[1] == CONN_TCP
    ensures input[0] != SOCKS5_VERSION || input[1] != CONN_TCP ==> Request(input, fmt) == Refused(4, [])
  {
  }

  /** An address type other than IPv4, domain or IPv6 is refused after the
      header with nothing written. */
  lemma RequestRejectsUnknownAddressType(input: Bytes, fmt: Ipv6Formatter)
    requires 4 <= |input| && input[0] == SOCKS5_VERSION && input[1] == CONN_TCP
    requires input[3] !in {ADDR_IPV4, ADDR_DOMAIN, ADDR_IPV6}
    ensures Request(input, fmt) == Refused(4, [])
  {
  }

  /** IPv4: six bytes after the header; the destination reads back as the
      four address bytes in wire order and the big-endian port. */
  lemma RequestIpv4(input: Bytes, fmt: Ipv6Formatter)
    requires 10 <= |input| && input[0] == SOCKS5_VERSION && input[1] == CONN_TCP
    requires input[3] == ADDR_IPV4
    ensures var o := Request(input, fmt);
      && o.Accepted? && o.consumed == 10 && o.reply == SUCCESS_REPLY
      && SplitHostPort(o.value).Some?
      && ParseDottedQuad(SplitHostPort(o.value).value.0) == Some(input[4..8])
      && SplitHostPort(o.value).value.1 == (input[8] as int) * 256 + input[9] as int
  {
    var body := input[4..][..IPV4_BODY];
    assert body[..4] == input[4..8];
    DottedQuadRoundTrip(body[..4]);
    HostPortRoundTrip(DottedQuad(body[..4]), BigEndianU16(body[4..]));
  }

  /** IPv6: eighteen bytes after the header; the host is the formatter
      applied to the address bytes in reverse order, the port is big-endian. */
  lemma RequestIpv6(input: Bytes, fmt: Ipv6Formatter)
    requires 22 <= |input| && input[0] == SOCKS5_VERSION && input[1] == CONN_TCP
    requires input[3] == ADDR_IPV6
    ensures var o := Request(input, fmt);
      && o.Accepted? && o.consumed == 22 && o.reply == SUCCESS_REPLY
      && SplitHostPort(o.value) == Some((fmt(Reversed(input[4..20])), (input[20] as int) * 256 + input[21] as int))
  {
    var body := input[4..][..IPV6_BODY];
    assert body[..16] == input[4..20];
    HostPortRoundTrip(Ipv6Host(body[..16], fmt), BigEndianU16(body[16..]));
  }

  /** Domain: one length byte L, then exactly L + 2 bytes; the host is the L
      name bytes verbatim, whatever they hold (colons included). */
  lemma RequestDomain(input: Bytes, fmt: Ipv6Formatter)
    requires 5 <= |input| && input[0] == SOCKS5_VERSION && input[1] == CONN_TCP
    requires input[3] == ADDR_DOMAIN && 7 + input[4] as int <= |input|
    ensures var o := Request(input, fmt);
      && o.Accepted? && o.consumed == 7 + input[4] as int && o.reply == SUCCESS_REPLY
      && SplitHostPort(o.value) ==
           Some((input[5..5 + input[4]], (input[5 + input[4]] as int) * 256 + input[6 + input[4]] as int))
  {
    var len := input[4] as int;
    var name := input[4..][1..1 + len + 2];
    assert name == input[5..7 + len];
    assert name[..len] == input[5..5 + len];
    assert name[len..] == input[5 + len..7 + len];
    HostPortRoundTrip(name[..len], BigEndianU16(name[len..]));
  }

  /** Every accepted request writes the same 10-byte reply, whatever the
      destination; a refused one writes nothing. */
  lemma RequestReplies(input: Bytes, fmt: Ipv6Formatter)
    ensures Request(input, fmt).Accepted? ==>
      Request(input, fmt).reply == [5, 0, 0, 1, 0, 0, 0, 0, 0, 0]
    ensures !Request(input, fmt).Accepted? ==> Request(input, fmt).reply == []
  {
  }

  /** The request parser reads exactly what it reports as consumed. */
  lemma RequestReadsExactly(input: Bytes, extra: Bytes, fmt: Ipv6Formatter)
    requires !Request(input, fmt).ShortInput?
    ensures var c := Request(input, fmt).consumed;
      c <= |input| && Request(input[..c] + extra, fmt) == Request(input, fmt)
  {
    var c := Request(input, fmt).consumed;
    var t := input[..c] + extra;
    assert t[..4] == input[..4];
    if Request(input, fmt).Accepted? {
      assert t[4..][..c - 4] == input[4..][..c - 4];
      if input[3] == ADDR_DOMAIN {
        assert t[4] == input[4];
        var n := 1 + input[4] as int + 2;
        assert t[4..][..n][1..n] == input[4..][..n][1..n];
      } else if input[3] == ADDR_IPV4 {
        assert t[4..][..IPV4_BODY] == input[4..][..IPV4_BODY];
      } else {
        assert t[4..][..IPV6_BODY] == input[4..][..IPV6_BODY];
      }
    }
  }

  /** A stream that ends before the request's last byte is an I/O
      failure, never a refusal or an acceptance. */
  lemma RequestNeedsAll(input: Bytes, fmt: Ipv6Formatter, j: nat)
    requires !Request(input, fmt).ShortInput? && j < Request(input, fmt).consumed
    ensures Request(input[..j], fmt).ShortInput?
  {
  }

  // ---------------------------------------------------------------------
  // Whole negotiation

  /** Without no-auth on offer the request is never read: negotiation
      ends after the method list, having written nothing. */
  lemma NegotiateStopsAfterRefusedAuth(input: Bytes, fmt: Ipv6Formatter)
    requires 2 <= |input| && 2 + input[1] as int <= |input|
    requires AUTH_NO_AUTH !in input[2..2 + input[1] as int]
    ensures Negotiate(input, fmt) == Refused(2 + input[1] as int, [])
  {
  }

  /** What a negotiation writes: (5, 0) and the 10-byte reply on success;
      on refusal either nothing (bad auth) or only (5, 0) (bad request). */
  lemma NegotiateReplies(input: Bytes, fmt: Ipv6Formatter)
    ensures Negotiate(input, fmt).Accepted? ==> Negotiate(input, fmt).reply == AUTH_REPLY + SUCCESS_REPLY
    ensures Negotiate(input, fmt).Refused? ==> Negotiate(input, fmt).reply in {[], AUTH_REPLY}
  {
    match Auth(input)
    case Accepted(_, c, w) =>
      RequestReplies(input[c..], fmt);
      assert AUTH_REPLY + [] == AUTH_REPLY;
    case Refused(_, _) =>
    case ShortInput(_) =>
  }

  /** The whole negotiation reads exactly what it reports as consumed:
      bytes the client sends afterwards are left for the tunnel. */
  lemma NegotiateReadsExactly(input: Bytes, extra: Bytes, fmt: Ipv6Formatter)
    requires !Negotiate(input, fmt).ShortInput?
    ensures var c := Negotiate(input, fmt).consumed;
      c <= |input| && Negotiate(input[..c] + extra, fmt) == Negotiate(input, fmt)
  {
    var a := Auth(input).consumed;
    var c := Negotiate(input, fmt).consumed;
    var t := input[..c] + extra;
    if Auth(input).Refused? {
      AuthReadsExactly(input, extra);
    } else {
      var rest := input[a..];
      RequestReadsExactly(rest, extra, fmt);
      var r := Request(rest, fmt).consumed;
      assert c == a + r;
      CutAfter(input, a, r, extra);
      AuthReadsExactly(input, rest[..r] + extra);
    }
  }

  /** A stream that ends anywhere before the negotiation's last byte is an
      I/O failure, never a refusal or an acceptance. */
  lemma NegotiateNeedsAll(input: Bytes, fmt: Ipv6Formatter, j: nat)
    requires !Negotiate(input, fmt).ShortInput? && j < Negotiate(input, fmt).consumed
    ensures Negotiate(input[..j], fmt).ShortInput?
  {
    var a := Auth(input).consumed;
    if j < a {
      AuthNeedsAll(input, j);
    } else {
      var rest := input[a..];
      AuthReadsExactly(input, input[a..j]);
      assert input[..a] + input[a..j] == input[..j];
      assert input[..j][a..] == rest[..j - a];
      RequestNeedsAll(rest, fmt, j - a);
    }
  }

  /** A destination the negotiator produces is at most 261 bytes long
      (255 name bytes, a colon, five port digits). */
  lemma DestinationLength(input: Bytes, fmt: Ipv6Formatter)
    requires BoundedFormatter(fmt)
    requires Negotiate(input, fmt).Accepted?
    ensures |Negotiate(input, fmt).value| <= 261
  {
    var a := Auth(input).consumed;
    var rest := input[a..];
    var body := rest[4..];
    if rest[3] == ADDR_IPV4 {
      var b := body[..IPV4_BODY];
      HostPortLength(DottedQuad(b[..4]), BigEndianU16(b[4..]));
    } else if rest[3] == ADDR_IPV6 {
      var b := body[..IPV6_BODY];
      HostPortLength(Ipv6Host(b[..16], fmt), BigEndianU16(b[16..]));
    } else {
      var b := body[1..1 + body[0] as int + 2];
      HostPortLength(b[..|b| - 2], BigEndianU16(b[|b| - 2..]));
    }
  }

  /** The CONNECT to 127.0.0.1:80 of a client offering only no-auth. */
  lemma ConnectToLoopback(fmt: Ipv6Formatter)
    ensures Negotiate([5, 1, 0, 5, 1, 0, 1, 127, 0, 0, 1, 0, 80], fmt)
         == Accepted([49, 50, 55, 46, 48, 46, 48, 46, 49, 58, 56, 48], 13, AUTH_REPLY + SUCCESS_REPLY)
  {
    var input: Bytes := [5, 1, 0, 5, 1, 0, 1, 127, 0, 0, 1, 0, 80];
    assert input[2..3] == [AUTH_NO_AUTH];
    assert Auth(input) == Accepted((), 3, AUTH_REPLY);
    var rest := input[3..];
    var body := rest[4..][..IPV4_BODY];
    assert body == [127, 0, 0, 1, 0, 80];
    assert body[..4] == [127, 0, 0, 1] && body[4..] == [0, 80];
    assert Decimal(127) == [49, 50, 55] by {
      assert Decimal(12) == [49, 50];
    }
    assert Decimal(0) == [48] && Decimal(1) == [49];
    assert DottedQuad([127, 0, 0, 1]) == [49, 50, 55, 46, 48, 46, 48, 46, 49];
    assert Decimal(80) == [56, 48] by {
      assert Decimal(8) == [56];
    }
    assert BigEndianU16(body[4..]) == 80;
    assert Ipv4Destination(body) == [49, 50, 55, 46, 48, 46, 48, 46, 49, 58, 56, 48];
    assert rest[..4] == [5, 1, 0, 1];
    assert Request(rest, fmt) == Accepted([49, 50, 55, 46, 48, 46, 48, 46, 49, 58, 56, 48], 10, SUCCESS_REPLY);
  }
}
