/** detail::do_local_socks5 of src/utility/local_socks5.cpp: the same SOCKS5
    negotiation as the client session, but it hands back the raw address
    descriptor (atyp, address, port as sent) with an error code instead of
    a "host:port" string. It checks neither version byte nor the offered
    methods, always replies (5, 0) once the method list has been read, and
    any failure, including the end of the stream, is caught and turned
    into the error code passed to the handler together with whatever the
    result vector held by then. */
module LocalSocks5 {
  import opened Bytes
  import opened Socks5
  import opened Stream

  /** The error_code given to the handler. */
  datatype ErrorCode = NoError | CmdNotSupported | AddressNotSupported | EndOfStream

  /** A run over the bytes a client sends: the handler's (ec, result), how
      many bytes were read, and what was written back. */
  datatype Run = Run(ec: ErrorCode, result: Bytes, consumed: nat, written: Bytes)

  /** std::array<uint8_t, 256 + 2> temp. */
  const TEMP_SIZE: nat := 256 + 2

  /** The address part of the request, after the 4-byte header whose last
      byte is `atyp`: the result vector (atyp first), the bytes of `body`
      read, and the connect reply written on success. */
  function AddressPart(atyp: Byte, body: Bytes): (r: Run)
    ensures r.consumed <= |body|
    ensures |r.result| >= 1 && r.result[0] == atyp
  {
    if atyp == ADDR_IPV4 then
      if |body| < IPV4_BODY then Run(EndOfStream, [atyp], |body|, [])
      else Run(NoError, [atyp] + body[..IPV4_BODY], IPV4_BODY, SUCCESS_REPLY)
    else if atyp == ADDR_IPV6 then
      if |body| < IPV6_BODY then Run(EndOfStream, [atyp], |body|, [])
      else Run(NoError, [atyp] + body[..IPV6_BODY], IPV6_BODY, SUCCESS_REPLY)
    else if atyp == ADDR_DOMAIN then
      if |body| < 1 then Run(EndOfStream, [atyp], |body|, [])
      else if |body| < 1 + body[0] as int + 2 then Run(EndOfStream, [atyp, body[0]], |body|, [])
      else Run(NoError, [atyp] + body[..1 + body[0] as int + 2], 1 + body[0] as int + 2, SUCCESS_REPLY)
    else Run(AddressNotSupported, [atyp], 0, [])
  }

  /** The run of detail::do_local_socks5 over the bytes `input`. */
  function Negotiate(input: Bytes): (r: Run)
    ensures r.consumed <= |input|
  {
    if |input| < 2 || |input| < 2 + input[1] as int then Run(EndOfStream, [], |input|, [])
    else
      var k := 2 + input[1] as int;
      var request := input[k..];
      if |request| < 4 then Run(EndOfStream, [], |input|, AUTH_REPLY)
      else if request[1] != CONN_TCP then Run(CmdNotSupported, [], k + 4, AUTH_REPLY)
      else
        var a := AddressPart(request[3], request[4..]);
        Run(a.ec, a.result, k + 4 + a.consumed, AUTH_REPLY + a.written)
  }

  /** std::copy(temp.begin(), temp.begin() + count, std::back_inserter(result)). */
  method AppendFrom(result: Bytes, temp: array<Byte>, count: nat) returns (r: Bytes)
    requires count <= temp.Length
    ensures r == result + temp[..count]
  {
    r := result;
    for i := 0 to count
      invariant r == result + temp[..i]
    {
      assert temp[..i + 1] == temp[..i] + [temp[i]];
      r := r + [temp[i]];
    }
  }

  /** detail::do_local_socks5, with the handler's arguments as its results.
      Every read into temp fits its 258 bytes (the ReadInto precondition). */
  method DoLocalSocks5(local: Socket) returns (ec: ErrorCode, result: Bytes)
    requires local.Valid()
    modifies local
    ensures local.Valid()
    ensures var run := Negotiate(old(local.Remaining()));
      && ec == run.ec && result == run.result
      && local.consumed == old(local.consumed) + run.consumed
      && local.sent == old(local.sent) + run.written
  {
    ghost var input := local.Remaining();
    var temp := new Byte[TEMP_SIZE];
    result := [];
    var authMethod := local.Read(2);
    if authMethod.IoError? {
      return EndOfStream, result;
    }
    var nMethod := authMethod.value[1] as int;
    assert nMethod == input[1];
    var ok := local.ReadInto(temp, nMethod);
    if !ok {
      return EndOfStream, result;
    }
    local.Write(AUTH_REPLY);
    ghost var k := 2 + nMethod;
    assert local.Remaining() == input[k..];
    var request := local.Read(4);
    if request.IoError? {
      return EndOfStream, result;
    }
    if request.value[1] != CONN_TCP {
      return CmdNotSupported, result;
    }
    var addrType := request.value[3];
    assert local.Remaining() == input[k..][4..];
    ec, result := ReadAddress(local, temp, addrType);
  }

  /** The switch on the address type: push atyp, read the address and port
      into temp, append them, and send the connect reply. */
  method ReadAddress(local: Socket, temp: array<Byte>, addrType: Byte) returns (ec: ErrorCode, result: Bytes)
    requires local.Valid() && temp.Length == TEMP_SIZE
    modifies local, temp
    ensures local.Valid()
    ensures var run := AddressPart(addrType, old(local.Remaining()));
      && ec == run.ec && result == run.result
      && local.consumed == old(local.consumed) + run.consumed
      && local.sent == old(local.sent) + run.written
  {
    ghost var body := local.Remaining();
    result := [addrType];
    var ok: bool;
    if addrType == ADDR_IPV4 {
      ok := local.ReadInto(temp, IPV4_BODY);
      if !ok {
        return EndOfStream, result;
      }
      result := AppendFrom(result, temp, IPV4_BODY);
    } else if addrType == ADDR_IPV6 {
      ok := local.ReadInto(temp, IPV6_BODY);
      if !ok {
        return EndOfStream, result;
      }
      result := AppendFrom(result, temp, IPV6_BODY);
    } else if addrType == ADDR_DOMAIN {
      var lengthBuf := local.Read(1);
      if lengthBuf.IoError? {
        return EndOfStream, result;
      }
      var domainLength := lengthBuf.value[0];
      assert domainLength == body[0];
      assert local.Remaining() == body[1..];
      result := result + [domainLength];
      ok := local.ReadInto(temp, domainLength as int + 2);
      if !ok {
        return EndOfStream, result;
      }
      assert temp[..domainLength as int + 2] == body[1..][..domainLength as int + 2];
      result := AppendFrom(result, temp, domainLength as int + 2);
      PrefixOfTail(body, 1 + domainLength as int + 2);
      assert result == [addrType] + body[..1 + domainLength as int + 2];
    } else {
      return AddressNotSupported, result;
    }
    local.Write(SUCCESS_REPLY);
    return NoError, result;
  }

  // ---------------------------------------------------------------------
  // Properties of the run

  /** Neither the version byte of the method-selection header, nor the
      method bytes themselves, nor the version byte of the request is ever
      inspected: only the method count matters. */
  lemma IgnoresVersionsAndMethods(n: Byte, v1: Byte, v2: Byte, m1: Bytes, m2: Bytes,
                                  rv1: Byte, rv2: Byte, rest: Bytes)
    requires |m1| == n && |m2| == n
    ensures Negotiate([v1, n] + m1 + [rv1] + rest) == Negotiate([v2, n] + m2 + [rv2] + rest)
  {
    var a := [v1, n] + m1 + [rv1] + rest;
    var b := [v2, n] + m2 + [rv2] + rest;
    var k := 2 + n as int;
    assert a[1] == n && b[1] == n;
    assert a[k..] == [rv1] + rest && b[k..] == [rv2] + rest;
    assert a[k..][1..] == b[k..][1..];
  }

  /** A stream that ends anywhere before the last byte a run reads ends
      that run with the end-of-stream error, whatever it would have been. */
  lemma NeedsAll(input: Bytes, j: nat)
    requires Negotiate(input).ec != EndOfStream && j < Negotiate(input).consumed
    ensures Negotiate(input[..j]).ec == EndOfStream
  {
  }

  /** Once the method list has arrived the reply (5, 0) goes out, whether
      or not no-auth was offered. */
  lemma AuthReplyAlwaysWritten(input: Bytes)
    requires 2 <= |input| && 2 + input[1] as int <= |input|
    ensures |Negotiate(input).written| >= 2 && Negotiate(input).written[..2] == AUTH_REPLY
  {
  }

  /** A command other than CONNECT ends with cmd_not_supported, an empty
      result and no connect reply, four bytes after the method list. */
  lemma RejectsOtherCommands(input: Bytes)
    requires 2 <= |input| && 2 + input[1] as int + 4 <= |input|
    requires input[2 + input[1] as int + 1] != CONN_TCP
    ensures Negotiate(input) == Run(CmdNotSupported, [], 2 + input[1] as int + 4, AUTH_REPLY)
  {
  }

  /** On success the address part is atyp followed by everything after
      it, exactly as sent: 7 bytes for IPv4, 19 for IPv6, L + 4 for a
      domain of length L. */
  lemma AddressPartCopiesDescriptor(atyp: Byte, body: Bytes)
    requires AddressPart(atyp, body).ec == NoError
    ensures var a := AddressPart(atyp, body);
      && a.consumed <= |body|
      && a.result == [atyp] + body[..a.consumed]
      && a.written == SUCCESS_REPLY
      && (atyp == ADDR_IPV4 ==> |a.result| == 7)
      && (atyp == ADDR_IPV6 ==> |a.result| == 19)
      && (atyp == ADDR_DOMAIN ==> |a.result| == a.result[1] as int + 4)
      && atyp in {ADDR_IPV4, ADDR_DOMAIN, ADDR_IPV6}
  {
  }

  /** On success the result is the request's atyp and everything after it,
      exactly as sent (the lengths of AddressPartCopiesDescriptor), and the
      connect reply follows the (5, 0). */
  lemma SuccessCopiesDescriptor(input: Bytes)
    requires Negotiate(input).ec == NoError
    ensures var run := Negotiate(input);
      var k := 2 + input[1] as int;
      && k + 4 <= run.consumed <= |input|
      && run.result == input[k + 3..run.consumed]
      && run.written == AUTH_REPLY + SUCCESS_REPLY
      && (run.result[0] == ADDR_IPV4 ==> |run.result| == 7)
      && (run.result[0] == ADDR_IPV6 ==> |run.result| == 19)
      && (run.result[0] == ADDR_DOMAIN ==> |run.result| == run.result[1] as int + 4)
      && run.result[0] in {ADDR_IPV4, ADDR_DOMAIN, ADDR_IPV6}
  {
    var k := 2 + input[1] as int;
    var request := input[k..];
    AddressPartCopiesDescriptor(request[3], request[4..]);
    var a := AddressPart(request[3], request[4..]);
    assert [request[3]] + request[4..][..a.consumed] == input[k + 3..k + 4 + a.consumed];
  }

  /** An unsupported address type ends with address_not_supported, yet the
      result still holds the atyp pushed before the check; no connect reply. */
  lemma UnsupportedAddressKeepsAtyp(input: Bytes)
    requires 2 <= |input| && 2 + input[1] as int + 4 <= |input|
    requires input[2 + input[1] as int + 1] == CONN_TCP
    requires input[2 + input[1] as int + 3] !in {ADDR_IPV4, ADDR_DOMAIN, ADDR_IPV6}
    ensures Negotiate(input) == Run(AddressNotSupported, [input[2 + input[1] as int + 3]],
                                    2 + input[1] as int + 4, AUTH_REPLY)
  {
  }

  /** The 10-byte connect reply is written exactly on success; otherwise
      at most (5, 0) was written. */
  lemma ConnectReplyOnlyOnSuccess(input: Bytes)
    ensures Negotiate(input).ec == NoError <==> Negotiate(input).written == AUTH_REPLY + SUCCESS_REPLY
    ensures Negotiate(input).ec != NoError ==> Negotiate(input).written in {[], AUTH_REPLY}
  {
    assert AUTH_REPLY + [] == AUTH_REPLY;
  }

  /** Whatever the outcome, the result is a verbatim copy of the bytes the
      client sent from the request's atyp on; a run cut short by the end of
      the stream keeps only what had been pushed (nothing, atyp, or atyp
      and the domain length). */
  lemma ResultIsPrefixOfDescriptor(input: Bytes)
    ensures var run := Negotiate(input);
      && run.consumed <= |input|
      && (run.ec == EndOfStream ==> run.consumed == |input| && |run.result| <= 2)
      && (run.result != [] ==>
            var k := 2 + input[1] as int;
            k + 3 + |run.result| <= |input| && run.result == input[k + 3..k + 3 + |run.result|])
  {
    var run := Negotiate(input);
    if run.ec == NoError {
      SuccessCopiesDescriptor(input);
    } else if run.result != [] {
      var k := 2 + input[1] as int;
      var request := input[k..];
      assert run.result == [request[3]] + request[4..][..|run.result| - 1];
    }
  }
}
