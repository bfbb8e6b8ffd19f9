/** The accepted local TCP socket, seen from the proxy: the finite sequence
    of bytes the SOCKS5 client sends before it stops, how far the proxy has
    read, and what the proxy has written back. Reads are asio's exact-length
    reads: they either fill the requested amount or end in an I/O error
    (end of stream) after taking whatever bytes were left. */
module Stream {
  import opened Bytes

  /** Completion of a call that may throw boost::system::system_error. */
  datatype Io<T> = Completed(value: T) | IoError

  class Socket {
    const incoming: Bytes
    var consumed: nat
    var sent: Bytes

    ghost predicate Valid()
      reads this
    {
      consumed <= |incoming|
    }

    /** The bytes the client has sent that the proxy has not read yet. */
    function Remaining(): Bytes
      reads this
      requires Valid()
    {
      incoming[consumed..]
    }

    constructor (incoming: Bytes)
      ensures Valid() && this.incoming == incoming
      ensures consumed == 0 && sent == []
    {
      this.incoming := incoming;
      consumed := 0;
      sent := [];
    }

    /** async_read(socket, dynamic_buffer(v), transfer_exactly(n)). */
    method Read(n: nat) returns (r: Io<Bytes>)
      requires Valid()
      modifies this
      ensures Valid() && sent == old(sent)
      ensures n <= |old(Remaining())| ==>
        r == Completed(old(Remaining())[..n]) && consumed == old(consumed) + n
      ensures |old(Remaining())| < n ==> r == IoError && consumed == |incoming|
    {
      if n <= |incoming| - consumed {
        assert incoming[consumed..][..n] == incoming[consumed..consumed + n];
        r := Completed(incoming[consumed..consumed + n]);
        consumed := consumed + n;
      } else {
        r := IoError;
        consumed := |incoming|;
      }
    }

    /** async_read(socket, buffer(buf, n)): fills buf[..n]; on a short
        stream the bytes that did arrive are in buf and the read fails. */
    method ReadInto(buf: array<Byte>, n: nat) returns (ok: bool)
      requires Valid() && n <= buf.Length
      modifies this, buf
      ensures Valid() && sent == old(sent)
      ensures ok == (n <= |old(Remaining())|)
      ensures ok ==> consumed == old(consumed) + n
      ensures !ok ==> consumed == |incoming|
      ensures var k := if ok then n else |old(Remaining())|;
        buf[..k] == old(Remaining())[..k] && buf[k..] == old(buf[k..])
    {
      var k := if n <= |incoming| - consumed then n else |incoming| - consumed;
      forall i | 0 <= i < k {
        buf[i] := incoming[consumed + i];
      }
      ok := k == n;
      consumed := consumed + k;
      if !ok {
        consumed := |incoming|;
      }
    }

    /** async_write of a whole buffer; write failures are not modelled. */
    method Write(data: Bytes)
      requires Valid()
      modifies this
      ensures Valid() && consumed == old(consumed) && sent == old(sent) + data
    {
      sent := sent + data;
    }
  }
}
