/** Socket addresses, how Rust's standard library prints them, and how it reads them back. */
module Net {
  import opened Collections
  import opened Text

  type Octet = n: nat | n < 0x100
  type Port = n: nat | n < 0x1_0000

  predicate TwoColons(t: string) {
    exists i, j :: 0 <= i < j < |t| && t[i] == ':' && t[j] == ':'
  }

  /** The shape every printed IPv6 address has; its inner grammar is not modelled. */
  predicate ValidV6(t: string) {
    TwoColons(t) && '[' !in t && ']' !in t
  }

  lemma ShortestV6()
    ensures ValidV6("::")
  {
    assert "::"[0] == ':' && "::"[1] == ':';
  }

  type V6Text = t: string | ValidV6(t)
    ghost witness (ShortestV6(); "::")

  datatype Ip = V4(a: Octet, b: Octet, c: Octet, d: Octet) | V6(text: V6Text) {
    predicate IsLoopback() {
      match this
      case V4(a, _, _, _) => a == 127
      case V6(text) => text == "::1"
    }

    /** RFC 1918 ranges, for IPv4 only. */
    predicate IsPrivateV4() {
      V4? && (a == 10 || (a == 172 && 16 <= b < 32) || (a == 192 && b == 168))
    }

    function Text(): string {
      match this
      case V4(a, b, c, d) => Decimal(a) + "." + Decimal(b) + "." + Decimal(c) + "." + Decimal(d)
      case V6(text) => text
    }
  }

  datatype SocketAddr = SocketAddr(ip: Ip, port: Port) {
    /** Rust's own printing, which puts an IPv6 address in brackets. */
    function Text(): string {
      match ip
      case V4(_, _, _, _) => HostPort(ip.Text(), port)
      case V6(text) => HostPort("[" + text + "]", port)
    }
  }

  /** The printing a SeedInfo uses, which never adds brackets. */
  function HostPort(host: string, port: Port): string {
    host + ":" + Decimal(port)
  }

  // ---------------------------------------------------------------- reading

  function DigitCount(s: string): (k: nat)
    ensures k <= |s| && AllDigits(s[..k])
    ensures k < |s| ==> !IsDigit(s[k])
  {
    if s == "" || !IsDigit(s[0]) then 0
    else
      var k := DigitCount(s[1..]);
      assert s[..1 + k] == [s[0]] + s[1..][..k];
      1 + k
  }

  /** rest is what remains of s after reading something without a colon in it. */
  ghost predicate Ate(s: string, rest: string) {
    && |rest| <= |s|
    && s[|s| - |rest|..] == rest
    && ':' !in s[..|s| - |rest|]
  }

  lemma AteTransitive(s: string, t: string, u: string)
    requires Ate(s, t) && Ate(t, u)
    ensures Ate(s, u)
  {
    var i, j := |s| - |t|, |s| - |u|;
    assert s[j..] == t[j - i..];
    assert s[..j] == s[..i] + t[..j - i];
  }

  function ReadOctet(s: string): (r: Option<(Octet, string)>)
    ensures r.Some? ==> Ate(s, r.value.1)
  {
    var k := DigitCount(s);
    if k == 0 || k > 3 || (k > 1 && s[0] == '0') || Value(s[..k]) > 255 then None
    else
      assert |s[k..]| == |s| - k;
      Some((Value(s[..k]), s[k..]))
  }

  function Expect(c: char, s: string): (r: Option<string>)
    ensures r.Some? ==> s == [c] + r.value
    ensures r.Some? && c != ':' ==> Ate(s, r.value)
  {
    if s != "" && s[0] == c then Some(s[1..]) else None
  }

  function ReadV4(s: string): Option<(Ip, string)> {
    var (a, s1) :- ReadOctet(s);
    var t1 :- Expect('.', s1);
    var (b, s2) :- ReadOctet(t1);
    var t2 :- Expect('.', s2);
    var (c, s3) :- ReadOctet(t2);
    var t3 :- Expect('.', s3);
    var (d, s4) :- ReadOctet(t3);
    Some((V4(a, b, c, d), s4))
  }

  lemma ReadV4Ate(s: string)
    requires ReadV4(s).Some?
    ensures Ate(s, ReadV4(s).value.1)
  {
    var s1 := ReadOctet(s).value.1;
    var t1 := Expect('.', s1).value;
    var s2 := ReadOctet(t1).value.1;
    var t2 := Expect('.', s2).value;
    var s3 := ReadOctet(t2).value.1;
    var t3 := Expect('.', s3).value;
    var s4 := ReadOctet(t3).value.1;
    AteTransitive(s, s1, t1);
    AteTransitive(s, t1, s2);
    AteTransitive(s, s2, t2);
    AteTransitive(s, t2, s3);
    AteTransitive(s, s3, t3);
    AteTransitive(s, t3, s4);
  }

  /** The port is the last thing read; leading zeros are allowed, overflow is not. */
  function ReadPort(s: string): Option<Port> {
    if s == "" || !AllDigits(s) || Value(s) >= 0x1_0000 then None else Some(Value(s))
  }

  function ReadV4Socket(s: string): Option<SocketAddr> {
    var (ip, rest) :- ReadV4(s);
    var digits :- Expect(':', rest);
    var port :- ReadPort(digits);
    Some(SocketAddr(ip, port))
  }

  function IndexOf(s: string, c: char): (i: nat)
    ensures i <= |s| && c !in s[..i]
    ensures i < |s| ==> s[i] == c
  {
    if s == "" || s[0] == c then 0
    else
      var i := IndexOf(s[1..], c);
      assert s[..1 + i] == [s[0]] + s[1..][..i];
      1 + i
  }

  function ReadV6Socket(s: string): Option<SocketAddr> {
    var body :- Expect('[', s);
    var i := IndexOf(body, ']');
    if i == |body| || !ValidV6(body[..i]) then None
    else
      var digits :- Expect(':', body[i + 1..]);
      var port :- ReadPort(digits);
      Some(SocketAddr(V6(body[..i]), port))
  }

  /** Rust's `parse::<SocketAddr>()`: IPv4 first, then bracketed IPv6. */
  function ParseSocketAddr(s: string): Option<SocketAddr> {
    var v4 := ReadV4Socket(s);
    if v4.Some? then v4 else ReadV6Socket(s)
  }

  /** Rust's `parse::<IpAddr>()`. */
  function ParseIp(s: string): Option<Ip> {
    if ReadV4(s).Some? && ReadV4(s).value.1 == "" then Some(ReadV4(s).value.0)
    else if ValidV6(s) then Some(V6(s))
    else None
  }

  // ---------------------------------------------------------------- round trips

  lemma {:induction false} DigitCountOf(d: string, rest: string)
    requires AllDigits(d)
    requires rest == "" || !IsDigit(rest[0])
    ensures DigitCount(d + rest) == |d|
  {
    if d == "" {
      assert d + rest == rest;
    } else {
      DigitCountOf(d[1..], rest);
      assert (d + rest)[1..] == d[1..] + rest;
    }
  }

  lemma ReadOctetPrinted(n: Octet, rest: string)
    requires rest == "" || !IsDigit(rest[0])
    ensures ReadOctet(Decimal(n) + rest) == Some((n, rest))
  {
    var d := Decimal(n);
    DigitCountOf(d, rest);
    DecimalOfSmall(n);
    ValueOfDecimal(n);
    assert (d + rest)[..|d|] == d && (d + rest)[|d|..] == rest;
  }

  lemma ExpectPrinted(c: char, s: string)
    ensures Expect(c, [c] + s) == Some(s)
  {
  }

  /** Reading a dotted quad, one octet at a time. */
  lemma ReadV4Steps(s: string, ip: Ip, t1: string, t2: string, t3: string, rest: string)
    requires ip.V4?
    requires ReadOctet(s) == Some((ip.a, "." + t1))
    requires ReadOctet(t1) == Some((ip.b, "." + t2))
    requires ReadOctet(t2) == Some((ip.c, "." + t3))
    requires ReadOctet(t3) == Some((ip.d, rest))
    ensures ReadV4(s) == Some((ip, rest))
  {
    hide ReadOctet, Expect;
    ExpectPrinted('.', t1);
    ExpectPrinted('.', t2);
    ExpectPrinted('.', t3);
  }

  lemma V4TextGrouped(a: string, b: string, c: string, d: string, rest: string)
    ensures a + "." + b + "." + c + "." + d + rest == a + ("." + (b + ("." + (c + ("." + (d + rest))))))
  {
  }

  lemma ReadV4Printed(ip: Ip, rest: string)
    requires ip.V4?
    requires rest == "" || !IsDigit(rest[0])
    ensures ReadV4(ip.Text() + rest) == Some((ip, rest))
  {
    hide ReadOctet, ReadV4, Decimal;
    var V4(a, b, c, d) := ip;
    V4TextGrouped(Decimal(a), Decimal(b), Decimal(c), Decimal(d), rest);
    ReadOctetPrinted(d, rest);
    var t3 := Decimal(d) + rest;
    OctetBeforeDot(c, t3);
    var t2 := Decimal(c) + ("." + t3);
    OctetBeforeDot(b, t2);
    var t1 := Decimal(b) + ("." + t2);
    OctetBeforeDot(a, t1);
    ReadV4Steps(Decimal(a) + ("." + t1), ip, t1, t2, t3, rest);
  }

  lemma OctetBeforeDot(n: Octet, rest: string)
    ensures ReadOctet(Decimal(n) + ("." + rest)) == Some((n, "." + rest))
  {
    ReadOctetPrinted(n, "." + rest);
  }

  lemma ReadPortPrinted(port: Port)
    ensures ReadPort(Decimal(port)) == Some(port)
  {
    ValueOfDecimal(port);
  }

  /** What is read as an octet was its printing, and no further digit follows. */
  lemma ReadOctetRead(s: string)
    requires ReadOctet(s).Some?
    ensures var (n, rest) := ReadOctet(s).value; s == Decimal(n) + rest && (rest == "" || !IsDigit(rest[0]))
  {
    var k := DigitCount(s);
    DecimalOfDigits(s[..k]);
    hide Decimal, Value, DigitCount;
    assert s == s[..k] + s[k..];
  }

  lemma ReadV4Read(s: string)
    requires ReadV4(s).Some?
    ensures var (ip, rest) := ReadV4(s).value; ip.V4? && s == ip.Text() + rest && (rest == "" || !IsDigit(rest[0]))
  {
    hide ReadOctet, Decimal;
    var s1 := ReadOctet(s).value.1;
    var t1 := Expect('.', s1).value;
    var s2 := ReadOctet(t1).value.1;
    var t2 := Expect('.', s2).value;
    var s3 := ReadOctet(t2).value.1;
    var t3 := Expect('.', s3).value;
    var (d, rest) := ReadOctet(t3).value;
    ReadOctetRead(s);
    ReadOctetRead(t1);
    ReadOctetRead(t2);
    ReadOctetRead(t3);
    var V4(a, b, c, _) := ReadV4(s).value.0;
    V4TextGrouped(Decimal(a), Decimal(b), Decimal(c), Decimal(d), rest);
    hide ReadV4, Expect;
  }

  /** A text reads as an IPv4 address exactly if it is that address's printing. */
  lemma ParseV4Exactly(s: string, ip: Ip)
    requires ip.V4?
    ensures ParseIp(s) == Some(ip) <==> s == ip.Text()
  {
    if ReadV4(s).Some? {
      ReadV4Read(s);
    }
    ReadV4Printed(ip, "");
    hide ReadV4, Decimal, ValidV6;
    assert ip.Text() + "" == ip.Text();
    assert forall t: string :: t + "" == t;
  }

  /** Digits that read as this port; leading zeros are allowed. */
  predicate PortDigits(digits: string, port: Port) {
    digits != "" && AllDigits(digits) && Value(digits) == port
  }

  /** A text reads as an IPv4 socket exactly if it is the address's printing, a colon, and digits of that value. */
  lemma ParseV4SocketExactly(s: string, ip: Ip, port: Port)
    requires ip.V4?
    ensures ParseSocketAddr(s) == Some(SocketAddr(ip, port))
       <==> exists digits | PortDigits(digits, port) :: s == ip.Text() + (":" + digits)
  {
    hide PortDigits, ReadV4Socket, ReadV6Socket;
    V6NotV4(s);
    if ReadV4Socket(s) == Some(SocketAddr(ip, port)) {
      var digits := V4SocketParts(s, ip, port);
    }
    if digits :| PortDigits(digits, port) && s == ip.Text() + (":" + digits) {
      ReadV4SocketOf(ip, digits, port);
    }
  }

  lemma V6NotV4(s: string)
    ensures ReadV6Socket(s).Some? ==> ReadV6Socket(s).value.ip.V6?
  {
    hide ReadPort, IndexOf;
  }

  lemma V4SocketParts(s: string, ip: Ip, port: Port) returns (digits: string)
    requires ip.V4? && ReadV4Socket(s) == Some(SocketAddr(ip, port))
    ensures PortDigits(digits, port) && s == ip.Text() + (":" + digits)
  {
    ReadV4Read(s);
    hide ReadV4, Value, Decimal;
    var rest := ReadV4(s).value.1;
    digits := Expect(':', rest).value;
  }

  lemma ReadV4SocketOf(ip: Ip, digits: string, port: Port)
    requires ip.V4? && PortDigits(digits, port)
    ensures ReadV4Socket(ip.Text() + (":" + digits)) == Some(SocketAddr(ip, port))
  {
    hide ReadV4, Value, Decimal;
    ReadV4Printed(ip, ":" + digits);
    ExpectPrinted(':', digits);
  }

  lemma ReadV4SocketPrinted(ip: Ip, port: Port)
    requires ip.V4?
    ensures ReadV4Socket(HostPort(ip.Text(), port)) == Some(SocketAddr(ip, port))
  {
    hide ReadV4, ReadPort, Decimal;
    var rest := ":" + Decimal(port);
    ReadV4Printed(ip, rest);
    ReadPortPrinted(port);
    assert HostPort(ip.Text(), port) == ip.Text() + rest;
  }

  /** A readable IPv4 socket has its only colon in front of the port. */
  lemma ColonBetween(a: string, b: string, k: nat)
    requires ':' !in a && ':' !in b && k < |a + [':'] + b|
    ensures (a + [':'] + b)[k] == ':' ==> k == |a|
  {
  }

  lemma V4SocketHasOneColon(s: string, i: nat, j: nat)
    requires ReadV4Socket(s).Some?
    requires i < j < |s|
    ensures !(s[i] == ':' && s[j] == ':')
  {
    hide ReadV4;
    ReadV4Ate(s);
    var rest := ReadV4(s).value.1;
    var digits := Expect(':', rest).value;
    var m := |s| - |rest|;
    assert s == s[..m] + [':'] + digits;
    ColonBetween(s[..m], digits, i);
    ColonBetween(s[..m], digits, j);
  }

  /** What the unbracketed `ip:port` printing of a seed reads back as:
      the same address for IPv4, nothing at all for IPv6. */
  lemma ParseUnbracketed(addr: SocketAddr)
    ensures ParseSocketAddr(HostPort(addr.ip.Text(), addr.port)) == if addr.ip.V4? then Some(addr) else None
  {
    var s := HostPort(addr.ip.Text(), addr.port);
    if addr.ip.V4? {
      ReadV4SocketPrinted(addr.ip, addr.port);
    } else {
      var text := addr.ip.text;
      var i, j :| 0 <= i < j < |text| && text[i] == ':' && text[j] == ':';
      assert s[i] == ':' && s[j] == ':' && s[0] == text[0];
      if ReadV4Socket(s).Some? {
        V4SocketHasOneColon(s, i, j);
      }
    }
  }

  /** Rust's bracketed printing reads back as the same address, for both families. */
  lemma {:induction false} BracketEnds(text: string, tail: string)
    requires ']' !in text
    ensures IndexOf(text + "]" + tail, ']') == |text|
  {
    if text != "" {
      BracketEnds(text[1..], tail);
      assert (text + "]" + tail)[1..] == text[1..] + "]" + tail;
    }
  }

  lemma SplitAround(a: string, mark: string, b: string)
    requires |mark| == 1
    ensures (a + mark + b)[..|a|] == a && (a + mark + b)[|a| + 1..] == b
  {
  }

  /** Reading a bracketed address whose pieces are known. */
  lemma ReadV6Steps(text: V6Text, tail: string, port: Port)
    requires IndexOf(text + "]" + tail, ']') == |text|
    requires tail != "" && tail[0] == ':' && ReadPort(tail[1..]) == Some(port)
    ensures ReadV6Socket("[" + (text + "]" + tail)) == Some(SocketAddr(V6(text), port))
  {
    hide ReadPort, IndexOf, ValidV6;
    var body := text + "]" + tail;
    SplitAround(text, "]", tail);
    assert ("[" + body)[1..] == body;
  }

  lemma ReadV6SocketPrinted(text: V6Text, port: Port)
    ensures ReadV6Socket(HostPort("[" + text + "]", port)) == Some(SocketAddr(V6(text), port))
  {
    hide ReadPort, IndexOf, Decimal, ReadV6Socket;
    var tail := ":" + Decimal(port);
    assert tail[1..] == Decimal(port);
    BracketEnds(text, tail);
    ReadPortPrinted(port);
    ReadV6Steps(text, tail, port);
    assert HostPort("[" + text + "]", port) == "[" + (text + "]" + tail);
  }

  lemma ParsePrinted(addr: SocketAddr)
    ensures ParseSocketAddr(addr.Text()) == Some(addr)
  {
    hide ReadV6Socket, Decimal;
    match addr.ip
    case V4(_, _, _, _) =>
      ReadV4SocketPrinted(addr.ip, addr.port);
    case V6(text) =>
      assert addr.Text()[0] == '[';
      assert ReadOctet(addr.Text()).None?;
      ReadV6SocketPrinted(text, addr.port);
  }

  lemma LastColon(host: string, port: Port, i: nat)
    requires i < |HostPort(host, port)|
    ensures i == |host| ==> HostPort(host, port)[i] == ':'
    ensures i > |host| ==> HostPort(host, port)[i] != ':'
  {
    hide Decimal;
    if i > |host| {
      assert HostPort(host, port)[i] == Decimal(port)[i - |host| - 1];
    }
  }

  /** `host:port` printing loses nothing, because a decimal port has no colon. */
  lemma HostPortInjective(host1: string, port1: Port, host2: string, port2: Port)
    requires HostPort(host1, port1) == HostPort(host2, port2)
    ensures host1 == host2 && port1 == port2
  {
    hide Decimal;
    var s := HostPort(host1, port1);
    LastColon(host1, port1, |host2|);
    LastColon(host2, port2, |host1|);
    LastColon(host1, port1, |host1|);
    LastColon(host2, port2, |host2|);
    assert |host1| == |host2|;
    assert s[..|host1|] == host1 && s[..|host2|] == host2;
    assert s[|host1| + 1..] == Decimal(port1) && s[|host2| + 1..] == Decimal(port2);
    DecimalInjective(port1, port2);
  }

  lemma NoColonInV4(s: string)
    requires ReadV4(s).Some? && ReadV4(s).value.1 == ""
    ensures ':' !in s
  {
    hide ReadV4;
    ReadV4Ate(s);
    assert s[..|s|] == s;
  }

  lemma ParseIpPrinted(ip: Ip)
    ensures ParseIp(ip.Text()) == Some(ip)
  {
    hide ReadV4;
    match ip
    case V4(_, _, _, _) =>
      ReadV4Printed(ip, "");
      assert ip.Text() + "" == ip.Text();
    case V6(text) =>
      var i, j :| 0 <= i < j < |text| && text[i] == ':' && text[j] == ':';
      assert text[i] in text;
      if ReadV4(text).Some? && ReadV4(text).value.1 == "" {
        NoColonInV4(text);
      }
  }
}
