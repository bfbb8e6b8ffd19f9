/** The textual forms the SOCKS5 negotiator renders: std::to_string of an
    unsigned value, the dotted-quad IPv4 form, and "host:port". Each comes
    with the parser that reads it back, so that rendering can be stated as a
    round trip. */
module TextFormat {
  import opened Bytes

  const ZERO: Byte := 48
  const DOT: Byte := 46
  const COLON: Byte := 58

  predicate IsDigit(b: Byte) { ZERO <= b <= 57 }

  predicate AllDigits(t: Bytes) { forall i :: 0 <= i < |t| ==> IsDigit(t[i]) }

  function Digit(d: nat): (b: Byte)
    requires d < 10
    ensures IsDigit(b) && b - ZERO == d
  {
    ZERO + d
  }

  /** std::to_string of an unsigned value: its shortest decimal form. */
  function Decimal(n: nat): (t: Bytes)
    ensures 1 <= |t| && AllDigits(t)
    ensures (t[0] == ZERO) == (n == 0)
    decreases n
  {
    if n < 10 then [Digit(n)] else Decimal(n / 10) + [Digit(n % 10)]
  }

  /** The number a string of decimal digits denotes. */
  function DigitsValue(t: Bytes): nat
    requires AllDigits(t)
    decreases |t|
  {
    if t == [] then 0 else DigitsValue(t[..|t| - 1]) * 10 + (t[|t| - 1] - ZERO)
  }

  lemma {:induction false} DecimalRoundTrip(n: nat)
    ensures DigitsValue(Decimal(n)) == n
  {
    if n >= 10 {
      DecimalRoundTrip(n / 10);
      var t := Decimal(n);
      assert t[..|t| - 1] == Decimal(n / 10);
    }
  }

  function Pow10(k: nat): nat
  {
    if k == 0 then 1 else 10 * Pow10(k - 1)
  }

  /** A value below 10^k has at most k decimal digits. */
  lemma {:induction false} DecimalWidth(n: nat, k: nat)
    requires 1 <= k && n < Pow10(k)
    ensures |Decimal(n)| <= k
  {
    if n >= 10 {
      assert k >= 2;
      DecimalWidth(n / 10, k - 1);
    }
  }

  lemma PortWidth(port: nat)
    requires port < 0x1_0000
    ensures |Decimal(port)| <= 5
  {
    assert Pow10(5) == 100000;
    DecimalWidth(port, 5);
  }

  lemma OctetWidth(b: nat)
    requires b < 256
    ensures |Decimal(b)| <= 3
  {
    assert Pow10(3) == 1000;
    DecimalWidth(b, 3);
  }

  /** ip::address_v4::to_string: the four octets, in wire order, in
      decimal and separated by dots. */
  function DottedQuad(a: Bytes): (t: Bytes)
    requires |a| == 4
    ensures |t| <= 15
  {
    OctetWidth(a[0]);
    OctetWidth(a[1]);
    OctetWidth(a[2]);
    OctetWidth(a[3]);
    Decimal(a[0]) + [DOT] + Decimal(a[1]) + [DOT]
    + Decimal(a[2]) + [DOT] + Decimal(a[3])
  }

  /** The fields of t between occurrences of sep. */
  function Split(t: Bytes, sep: Byte): (parts: seq<Bytes>)
    ensures |parts| >= 1
  {
    if t == [] then [[]]
    else
      var rest := Split(t[1..], sep);
      if t[0] == sep then [[]] + rest else [[t[0]] + rest[0]] + rest[1..]
  }

  lemma {:induction false} SplitNoSeparator(p: Bytes, sep: Byte)
    requires sep !in p
    ensures Split(p, sep) == [p]
  {
    if p != [] {
      SplitNoSeparator(p[1..], sep);
      assert [p[0]] + p[1..] == p;
    }
  }

  lemma {:induction false} SplitAtFirst(p: Bytes, sep: Byte, q: Bytes)
    requires sep !in p
    ensures Split(p + [sep] + q, sep) == [p] + Split(q, sep)
  {
    if p == [] {
      assert p + [sep] + q == [sep] + q;
      assert ([sep] + q)[1..] == q;
    } else {
      var t := p + [sep] + q;
      assert t[1..] == p[1..] + [sep] + q;
      SplitAtFirst(p[1..], sep, q);
      assert [p[0]] + p[1..] == p;
    }
  }

  predicate IsOctetText(t: Bytes)
  {
    1 <= |t| && AllDigits(t) && DigitsValue(t) < 256
  }

  /** Reads a dotted-quad address back into its four octets. */
  function ParseDottedQuad(t: Bytes): Option<Bytes>
  {
    var parts := Split(t, DOT);
    if |parts| == 4 && forall i :: 0 <= i < 4 ==> IsOctetText(parts[i])
    then Some([DigitsValue(parts[0]), DigitsValue(parts[1]),
               DigitsValue(parts[2]), DigitsValue(parts[3])])
    else None
  }

  lemma DecimalHasNo(n: nat, c: Byte)
    requires !IsDigit(c)
    ensures c !in Decimal(n)
  {
    var t := Decimal(n);
    assert forall i :: 0 <= i < |t| ==> t[i] != c;
  }

  lemma SplitDottedQuad(a: Bytes)
    requires |a| == 4
    ensures Split(DottedQuad(a), DOT) == [Decimal(a[0]), Decimal(a[1]), Decimal(a[2]), Decimal(a[3])]
  {
    var d0, d1, d2, d3 := Decimal(a[0]), Decimal(a[1]), Decimal(a[2]), Decimal(a[3]);
    var s2 := d2 + [DOT] + d3;
    var s1 := d1 + [DOT] + s2;
    assert DottedQuad(a) == d0 + [DOT] + s1;
    DecimalHasNo(a[0], DOT);
    DecimalHasNo(a[1], DOT);
    DecimalHasNo(a[2], DOT);
    DecimalHasNo(a[3], DOT);
    SplitNoSeparator(d3, DOT);
    SplitAtFirst(d2, DOT, d3);
    SplitAtFirst(d1, DOT, s2);
    SplitAtFirst(d0, DOT, s1);
  }

  lemma DottedQuadRoundTrip(a: Bytes)
    requires |a| == 4
    ensures ParseDottedQuad(DottedQuad(a)) == Some(a)
  {
    var parts := Split(DottedQuad(a), DOT);
    SplitDottedQuad(a);
    forall i | 0 <= i < 4
      ensures IsOctetText(parts[i]) && DigitsValue(parts[i]) == a[i]
    {
      DecimalRoundTrip(a[i]);
    }
    assert [a[0], a[1], a[2], a[3]] == a;
  }

  /** Index of the last occurrence of c in t. */
  function LastIndexOf(t: Bytes, c: Byte): (r: Option<nat>)
    ensures r.None? ==> c !in t
    ensures r.Some? ==> r.value < |t| && t[r.value] == c && c !in t[r.value + 1..]
  {
    if t == [] then None
    else if t[|t| - 1] == c then Some(|t| - 1)
    else
      var r := LastIndexOf(t[..|t| - 1], c);
      assert t == t[..|t| - 1] + [t[|t| - 1]];
      r
  }

  /** "host:port" as the negotiator renders it: a_p += ":"; a_p += to_string(port). */
  function HostPort(host: Bytes, port: nat): (t: Bytes)
    ensures |t| > |host| + 1 && t[..|host|] == host && t[|host|] == COLON
  {
    host + [COLON] + Decimal(port)
  }

  /** Reads "host:port" back, splitting at the last colon; the host may
      itself hold colons (an IPv6 text, or an unchecked domain name). */
  function SplitHostPort(t: Bytes): Option<(Bytes, nat)>
  {
    match LastIndexOf(t, COLON)
    case None => None
    case Some(k) =>
      var p := t[k + 1..];
      if 1 <= |p| && AllDigits(p) && DigitsValue(p) < 0x1_0000 then Some((t[..k], DigitsValue(p)))
      else None
  }

  lemma HostPortRoundTrip(host: Bytes, port: nat)
    requires port < 0x1_0000
    ensures SplitHostPort(HostPort(host, port)) == Some((host, port))
  {
    var t := HostPort(host, port);
    var d := Decimal(port);
    DecimalHasNo(port, COLON);
    var k := LastIndexOf(t, COLON).value;
    assert t[|host|] == COLON;
    assert t[k + 1..] == d;
    assert t[..k] == host;
    DecimalRoundTrip(port);
  }

  lemma HostPortLength(host: Bytes, port: nat)
    requires port < 0x1_0000
    ensures |HostPort(host, port)| <= |host| + 6
  {
    PortWidth(port);
  }
}
