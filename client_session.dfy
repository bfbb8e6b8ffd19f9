/** The client_session class of src/session/client_session.cpp: it owns the
    accepted local socket, negotiates SOCKS5 on it, connects to the relay,
    sends the encrypted handshake and then starts the two forwarding loops.
    The relay socket is modelled by whether its connect and the handshake
    write succeed and by the bytes written to it; the forwarding loops
    themselves are not part of this model (their start is the flag
    `forwarding`). */
module Session {
  import opened Bytes
  import opened TextFormat
  import opened Socks5
  import opened Stream
  import opened ClientNegotiation
  import opened Handshake

  /** What do_socks5_auth returns for a negotiation outcome: true or false,
      or the system_error that a failed read throws. */
  function AuthReport(o: Outcome<()>): (r: Io<bool>)
    ensures r.IoError? <==> o.ShortInput?
    ensures r.Completed? ==> (r.value <==> o.Accepted?)
  {
    match o
    case Accepted(_, _, _) => Completed(true)
    case Refused(_, _) => Completed(false)
    case ShortInput(_) => IoError
  }

  /** What do_get_proxy_addr and do_local_socks5 return: the pair
      (success, "host:port"), with (false, "") on a refusal, or the
      system_error that a failed read throws. */
  function AddrReport(o: Outcome<Bytes>): (r: Io<(bool, Bytes)>)
    ensures r.IoError? <==> o.ShortInput?
    ensures r.Completed? ==> (r.value.0 <==> o.Accepted?)
    ensures r.Completed? && !r.value.0 ==> r.value.1 == []
  {
    match o
    case Accepted(d, _, _) => Completed((true, d))
    case Refused(_, _) => Completed((false, []))
    case ShortInput(_) => IoError
  }

  class ClientSession {
    /** The accepted SOCKS5 connection. */
    const local: Socket
    /** The shared secret, identical for every session. */
    const key: Bytes
    /** The stream cipher's keystream for a (key, iv). */
    const keystream: Keystream
    /** ip::make_address_v6(...).to_string(). */
    const ipv6Text: Ipv6Formatter
    /** Byte order of this host, used for the handshake size field. */
    const littleEndian: bool

    var iv: Bytes
    var encrypt: Option<CipherState>
    var decrypt: Option<CipherState>
    var remoteConnected: bool
    /** Every byte written to the relay socket. */
    var remoteSent: Bytes
    /** Both forwarding loops have been spawned. */
    var forwarding: bool

    ghost predicate Valid()
      reads this, local
    {
      local.Valid() && |iv| == IV_SIZE && BoundedFormatter(ipv6Text)
    }

    /** `initialIv` stands for the uninitialised contents of the 8-byte
        block iv(8): nothing reads them before send_handshake sets the IV. */
    constructor (local: Socket, key: Bytes, keystream: Keystream, ipv6Text: Ipv6Formatter, littleEndian: bool,
                 initialIv: Bytes)
      requires local.Valid() && BoundedFormatter(ipv6Text) && |initialIv| == IV_SIZE
      ensures Valid()
      ensures this.local == local && this.key == key && this.keystream == keystream
      ensures this.ipv6Text == ipv6Text && this.littleEndian == littleEndian
      ensures iv == initialIv && encrypt == None && decrypt == None
      ensures !remoteConnected && remoteSent == [] && !forwarding
    {
      this.local := local;
      this.key := key;
      this.keystream := keystream;
      this.ipv6Text := ipv6Text;
      this.littleEndian := littleEndian;
      iv := initialIv;
      encrypt, decrypt := None, None;
      remoteConnected, remoteSent, forwarding := false, [], false;
    }

    /** do_socks5_auth. */
    method DoSocks5Auth() returns (r: Io<bool>)
      requires Valid()
      modifies local
      ensures Valid()
      ensures Performed(Auth(old(local.Remaining())), old(local.consumed), old(local.sent),
                        local.consumed, local.sent, |local.incoming|)
      ensures r == AuthReport(Auth(old(local.Remaining())))
    {
      ghost var input := local.Remaining();
      var authMethod := local.Read(2);
      if authMethod.IoError? {
        return IoError;
      }
      var nMethod := authMethod.value[1];
      assert nMethod == input[1];
      assert local.Remaining() == input[2..];
      var methodsBuf := local.Read(nMethod);
      if methodsBuf.IoError? {
        return IoError;
      }
      assert methodsBuf.value == input[2..][..nMethod];
      assert methodsBuf.value == input[2..2 + nMethod as int];
      var findAuth := FindNoAuth(methodsBuf.value);
      if !findAuth {
        return Completed(false);
      }
      local.Write([SOCKS5_VERSION, AUTH_NO_AUTH]);
      return Completed(true);
    }

    /** do_get_proxy_addr. */
    method DoGetProxyAddr() returns (r: Io<(bool, Bytes)>)
      requires Valid()
      modifies local
      ensures Valid()
      ensures Performed(Request(old(local.Remaining()), ipv6Text), old(local.consumed), old(local.sent),
                        local.consumed, local.sent, |local.incoming|)
      ensures r == AddrReport(Request(old(local.Remaining()), ipv6Text))
    {
      ghost var input := local.Remaining();
      var header := local.Read(4);
      if header.IoError? {
        return IoError;
      }
      var request := header.value;
      if request[0] != SOCKS5_VERSION {
        return Completed((false, []));
      }
      if request[1] != CONN_TCP {
        return Completed((false, []));
      }
      ghost var body := input[4..];
      var aP: Bytes;
      if request[3] == ADDR_IPV4 {
        var apBuf := local.Read(IPV4_BODY);
        if apBuf.IoError? {
          return IoError;
        }
        var addrPt := apBuf.value;
        assert addrPt == body[..IPV4_BODY];
        aP := DottedQuad(addrPt[..4]);
        aP := aP + [COLON];
        aP := aP + Decimal(BigEndianU16(addrPt[4..]));
      } else if request[3] == ADDR_IPV6 {
        var apBuf := local.Read(IPV6_BODY);
        if apBuf.IoError? {
          return IoError;
        }
        var addrPt := apBuf.value;
        assert addrPt == body[..IPV6_BODY];
        var addr := Reversed(addrPt[..16]);
        aP := ipv6Text(addr);
        aP := aP + [COLON];
        aP := aP + Decimal(BigEndianU16(addrPt[16..]));
      } else if request[3] == ADDR_DOMAIN {
        var lengthBuf := local.Read(1);
        if lengthBuf.IoError? {
          return IoError;
        }
        var domainLength := lengthBuf.value[0] as int;
        assert domainLength == body[0];
        assert local.Remaining() == body[1..];
        var apBuf := local.Read(domainLength + 2);
        if apBuf.IoError? {
          return IoError;
        }
        assert apBuf.value == body[1..1 + domainLength + 2];
        aP := apBuf.value[..domainLength];
        aP := aP + [COLON];
        var port := BigEndianU16(apBuf.value[domainLength..]);
        aP := aP + Decimal(port);
      } else {
        return Completed((false, []));
      }
      local.Write(SUCCESS_REPLY);
      return Completed((true, aP));
    }

    /** do_local_socks5: the request is read only when auth succeeded. */
    method DoLocalSocks5() returns (r: Io<(bool, Bytes)>)
      requires Valid()
      modifies local
      ensures Valid()
      ensures Performed(Negotiate(old(local.Remaining()), ipv6Text), old(local.consumed), old(local.sent),
                        local.consumed, local.sent, |local.incoming|)
      ensures r == AddrReport(Negotiate(old(local.Remaining()), ipv6Text))
    {
      ghost var input := local.Remaining();
      var auth := DoSocks5Auth();
      if auth.IoError? {
        return IoError;
      }
      if auth.value {
        assert local.Remaining() == input[Auth(input).consumed..];
        r := DoGetProxyAddr();
      } else {
        r := Completed((false, []));
      }
    }

    /** send_handshake: draws the IV (rngBlock stands for the random pool's
        output), seeds both cipher states from (key, iv), encrypts the
        destination in place and writes size, IV and ciphertext to the relay
        as one message. A failed write throws; what part of the message had
        gone out then is not modelled. */
    method SendHandshake(rngBlock: Bytes, addrPort: Bytes, writeOk: bool) returns (ok: bool)
      requires |rngBlock| == IV_SIZE
      modifies this
      ensures iv == rngBlock
      ensures encrypt == Some(Advanced(Seeded(key, rngBlock), |addrPort|))
      ensures decrypt == Some(Seeded(key, rngBlock))
      ensures ok == writeOk
      ensures remoteSent == if writeOk then old(remoteSent) + Message(keystream, key, rngBlock, addrPort, littleEndian)
                            else old(remoteSent)
      ensures remoteConnected == old(remoteConnected) && forwarding == old(forwarding)
    {
      iv := rngBlock;
      var enc := Seeded(key, iv);
      decrypt := Some(Seeded(key, iv));
      var buf := new Byte[|addrPort|](i requires 0 <= i < |addrPort| => addrPort[i]);
      assert buf[..] == addrPort;
      enc := ProcessString(keystream, enc, buf);
      encrypt := Some(enc);
      var size := SizeField(buf.Length);
      var sequence := NativeU16(size, littleEndian) + iv + buf[..];
      if writeOk {
        remoteSent := remoteSent + sequence;
      }
      ok := writeOk;
    }

    /** start, up to the spawning of the two forwarding loops: negotiate;
        on failure return; connect to the relay (connectOk); send the
        handshake (writeOk); then spawn. Any system_error on the way ends
        start without spawning. */
    method Start(connectOk: bool, rngBlock: Bytes, writeOk: bool)
      requires Valid() && |rngBlock| == IV_SIZE
      requires !remoteConnected && remoteSent == [] && !forwarding
      modifies this, local
      ensures Valid()
      ensures var o := Negotiate(old(local.Remaining()), ipv6Text);
        && Performed(o, old(local.consumed), old(local.sent), local.consumed, local.sent, |local.incoming|)
        && remoteConnected == (o.Accepted? && connectOk)
        && forwarding == (remoteConnected && writeOk)
        && remoteSent == (if forwarding then Message(keystream, key, rngBlock, o.value, littleEndian) else [])
        && iv == (if remoteConnected then rngBlock else old(iv))
        && encrypt == (if remoteConnected then Some(Advanced(Seeded(key, rngBlock), |o.value|)) else old(encrypt))
        && decrypt == (if remoteConnected then Some(Seeded(key, rngBlock)) else old(decrypt))
      ensures forwarding ==>
        && |remoteSent| >= 2 + IV_SIZE
        && ReadNativeU16(remoteSent[..2], littleEndian) == |remoteSent| - 2
        && remoteSent[2..2 + IV_SIZE] == iv
    {
      ghost var input := local.Remaining();
      var negotiated := DoLocalSocks5();
      if negotiated.IoError? || !negotiated.value.0 {
        return;
      }
      var addrPort := negotiated.value.1;
      if !connectOk {
        return;
      }
      remoteConnected := true;
      var ok := SendHandshake(rngBlock, addrPort, writeOk);
      if !ok {
        return;
      }
      DestinationLength(input, ipv6Text);
      MessageFraming(keystream, key, rngBlock, addrPort, littleEndian);
      forwarding := true;
    }
  }
}
