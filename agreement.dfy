/** How the two SOCKS5 negotiators of the repository relate: the client
    session's (a "host:port" string) and do_local_socks5 of
    src/utility/local_socks5.cpp (the raw address descriptor). Whenever the
    client session accepts, the other negotiator accepts the same bytes,
    reads and writes the same, and its descriptor renders to the same
    destination, except for IPv6 where the client reverses the address. */
module Agreement {
  import opened Bytes
  import opened TextFormat
  import opened Socks5
  import ClientNegotiation
  import LocalSocks5

  /** Renders an address descriptor (atyp, address, port as sent, section 5
      of RFC 1928) as "host:port": an IPv4 address as a dotted quad, an IPv6
      address through the formatter in network order, a domain verbatim;
      the port big-endian. None when the descriptor is malformed. */
  function RenderDescriptor(d: Bytes, fmt: ClientNegotiation.Ipv6Formatter): Option<Bytes>
  {
    if |d| == 1 + IPV4_BODY && d[0] == ADDR_IPV4 then
      Some(HostPort(DottedQuad(d[1..5]), BigEndianU16(d[5..])))
    else if |d| == 1 + IPV6_BODY && d[0] == ADDR_IPV6 then
      Some(ClientNegotiation.Ipv6DestinationWireOrder(d[1..], fmt))
    else if 2 <= |d| && d[0] == ADDR_DOMAIN && |d| == d[1] as int + 4 then
      Some(HostPort(d[2..|d| - 2], BigEndianU16(d[|d| - 2..])))
    else None
  }

  /** A formatter that tells different addresses apart. */
  ghost predicate Injective(fmt: ClientNegotiation.Ipv6Formatter)
  {
    forall a: Bytes, b: Bytes {:trigger fmt(a), fmt(b)} :: |a| == 16 && |b| == 16 && fmt(a) == fmt(b) ==> a == b
  }

  /** The IPv4 case of RequestsAgree. */
  lemma Ipv4RequestAgrees(request: Bytes, fmt: ClientNegotiation.Ipv6Formatter)
    requires ClientNegotiation.Request(request, fmt).Accepted? && request[3] == ADDR_IPV4
    ensures var c := ClientNegotiation.Request(request, fmt);
      var a := LocalSocks5.AddressPart(request[3], request[4..]);
      && a.ec == LocalSocks5.NoError && 4 + a.consumed == c.consumed && a.written == c.reply
      && |a.result| > 0 && a.result[0] == ADDR_IPV4
      && RenderDescriptor(a.result, fmt) == Some(c.value)
  {
    var b := request[4..][..IPV4_BODY];
    var a := LocalSocks5.AddressPart(request[3], request[4..]);
    assert a == LocalSocks5.Run(LocalSocks5.NoError, [ADDR_IPV4] + b, IPV4_BODY, SUCCESS_REPLY);
    assert a.result[1..5] == b[..4] && a.result[5..] == b[4..];
  }

  /** The IPv6 case of RequestsAgree. */
  lemma Ipv6RequestAgrees(request: Bytes, fmt: ClientNegotiation.Ipv6Formatter)
    requires ClientNegotiation.Request(request, fmt).Accepted? && request[3] == ADDR_IPV6
    ensures var c := ClientNegotiation.Request(request, fmt);
      var a := LocalSocks5.AddressPart(request[3], request[4..]);
      && a.ec == LocalSocks5.NoError && 4 + a.consumed == c.consumed && a.written == c.reply
      && |a.result| == 1 + IPV6_BODY && a.result[0] == ADDR_IPV6
      && c.value == HostPort(fmt(Reversed(a.result[1..17])), BigEndianU16(a.result[17..]))
  {
    var b := request[4..][..IPV6_BODY];
    var a := LocalSocks5.AddressPart(request[3], request[4..]);
    assert a == LocalSocks5.Run(LocalSocks5.NoError, [ADDR_IPV6] + b, IPV6_BODY, SUCCESS_REPLY);
    assert a.result[1..17] == b[..16] && a.result[17..] == b[16..];
  }

  /** The domain case of RequestsAgree. */
  lemma DomainRequestAgrees(request: Bytes, fmt: ClientNegotiation.Ipv6Formatter)
    requires ClientNegotiation.Request(request, fmt).Accepted? && request[3] == ADDR_DOMAIN
    ensures var c := ClientNegotiation.Request(request, fmt);
      var a := LocalSocks5.AddressPart(request[3], request[4..]);
      && a.ec == LocalSocks5.NoError && 4 + a.consumed == c.consumed && a.written == c.reply
      && |a.result| > 0 && a.result[0] == ADDR_DOMAIN
      && RenderDescriptor(a.result, fmt) == Some(c.value)
  {
    var body := request[4..];
    var len := body[0] as int;
    var b := body[1..1 + len + 2];
    var a := LocalSocks5.AddressPart(request[3], body);
    assert a == LocalSocks5.Run(LocalSocks5.NoError, [ADDR_DOMAIN] + body[..1 + len + 2], 1 + len + 2, SUCCESS_REPLY);
    assert a.result[1] == len && |a.result| == len + 4;
    assert a.result[2..|a.result| - 2] == b[..|b| - 2];
    assert a.result[|a.result| - 2..] == b[|b| - 2..];
  }

  /** For a request the client session accepts, the address part of
      do_local_socks5 succeeds on the same bytes, reading and writing the
      same, and its descriptor renders to the client's destination (for
      IPv6, after reversing the address). */
  lemma RequestsAgree(request: Bytes, fmt: ClientNegotiation.Ipv6Formatter)
    requires ClientNegotiation.Request(request, fmt).Accepted?
    ensures 4 <= |request| && request[1] == CONN_TCP
    ensures var c := ClientNegotiation.Request(request, fmt);
      var a := LocalSocks5.AddressPart(request[3], request[4..]);
      && a.ec == LocalSocks5.NoError && 4 + a.consumed == c.consumed && a.written == c.reply
      && |a.result| > 0 && a.result[0] == request[3]
      && (a.result[0] != ADDR_IPV6 ==> RenderDescriptor(a.result, fmt) == Some(c.value))
      && (a.result[0] == ADDR_IPV6 ==>
            |a.result| == 1 + IPV6_BODY &&
            c.value == HostPort(fmt(Reversed(a.result[1..17])), BigEndianU16(a.result[17..])))
  {
    if request[3] == ADDR_IPV4 {
      Ipv4RequestAgrees(request, fmt);
    } else if request[3] == ADDR_IPV6 {
      Ipv6RequestAgrees(request, fmt);
    } else {
      DomainRequestAgrees(request, fmt);
    }
  }

  /** Whatever the client session accepts, do_local_socks5 accepts too,
      having read the same bytes and written the same replies; rendering
      its descriptor gives the client's destination for IPv4 and domain
      requests, and for IPv6 the client's destination is the rendering of
      the reversed address. */
  lemma ParsersAgree(input: Bytes, fmt: ClientNegotiation.Ipv6Formatter)
    requires ClientNegotiation.Negotiate(input, fmt).Accepted?
    ensures var c := ClientNegotiation.Negotiate(input, fmt);
      var l := LocalSocks5.Negotiate(input);
      && l.ec == LocalSocks5.NoError && l.consumed == c.consumed && l.written == c.reply
      && |l.result| > 0
      && (l.result[0] != ADDR_IPV6 ==> RenderDescriptor(l.result, fmt) == Some(c.value))
      && (l.result[0] == ADDR_IPV6 ==>
            |l.result| == 1 + IPV6_BODY &&
            c.value == HostPort(fmt(Reversed(l.result[1..17])), BigEndianU16(l.result[17..])))
  {
    var k := 2 + input[1] as int;
    var request := input[k..];
    assert ClientNegotiation.Auth(input) == Accepted((), k, AUTH_REPLY);
    RequestsAgree(request, fmt);
  }

  /** do_local_socks5 succeeds on more inputs: once it succeeds, the client
      session accepts the same bytes exactly when no-auth is among the
      offered methods and the request's version byte is 5. */
  lemma ClientAcceptsWhenChecksPass(input: Bytes, fmt: ClientNegotiation.Ipv6Formatter)
    requires LocalSocks5.Negotiate(input).ec == LocalSocks5.NoError
    ensures 2 + input[1] as int < |input|
    ensures ClientNegotiation.Negotiate(input, fmt).Accepted? <==>
      AUTH_NO_AUTH in input[2..2 + input[1] as int] && input[2 + input[1] as int] == SOCKS5_VERSION
  {
  }

  /** The corrected IPv6 destination names the address as sent: it reads
      back as the formatter's text for the sixteen bytes in network order,
      and it is what the descriptor renders to. */
  lemma Ipv6WireOrderNamesAddress(body: Bytes, fmt: ClientNegotiation.Ipv6Formatter)
    requires |body| == IPV6_BODY
    ensures SplitHostPort(ClientNegotiation.Ipv6DestinationWireOrder(body, fmt)) ==
      Some((fmt(body[..16]), BigEndianU16(body[16..])))
    ensures RenderDescriptor([ADDR_IPV6] + body, fmt) == Some(ClientNegotiation.Ipv6DestinationWireOrder(body, fmt))
  {
    assert ([ADDR_IPV6] + body)[1..] == body;
    HostPortRoundTrip(fmt(body[..16]), BigEndianU16(body[16..]));
  }

  /** 2001:db8::1, port 80, in network order. */
  const DOC_ADDRESS: Bytes := [0x20, 0x01, 0x0d, 0xb8, 0, 0, 0, 0, 0, 0, 0, 0, 0, 0, 0, 1]

  /** As written, the client session names another address: for a request
      to [2001:db8::1]:80 and any formatter that tells addresses apart, the
      host it reads back is not the text of 2001:db8::1 (it is the text of
      100::b80d:120). */
  lemma Ipv6ReversalMisnamesAddress(fmt: ClientNegotiation.Ipv6Formatter)
    requires Injective(fmt)
    ensures var o := ClientNegotiation.Request([SOCKS5_VERSION, CONN_TCP, 0, ADDR_IPV6] + DOC_ADDRESS + [0, 80], fmt);
      && o.Accepted?
      && SplitHostPort(o.value) != Some((fmt(DOC_ADDRESS), 80))
  {
    var input := [SOCKS5_VERSION, CONN_TCP, 0, ADDR_IPV6] + DOC_ADDRESS + [0, 80];
    assert input[4..20] == DOC_ADDRESS;
    ClientNegotiation.RequestIpv6(input, fmt);
    var reversed := Reversed(DOC_ADDRESS);
    assert reversed[0] == 1 && DOC_ADDRESS[0] == 0x20;
    assert fmt(reversed) != fmt(DOC_ADDRESS);
  }
}
