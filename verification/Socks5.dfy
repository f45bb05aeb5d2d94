/** The outbound SOCKS5 handshake (src/outbound.rs) and the inbound one (src/server.rs) undo each other
    (RFC 1928). */
module Socks5 {
  import opened Prelude
  import opened Text
  import opened Utf8
  import opened Targets

  datatype Error =
    | Eof | BadVersion | NoAcceptableMethod | BadAddressType | NotUtf8 | BadHost | HostTooLong | Refused(code: byte)

  /** A connection's incoming bytes, read front to back. */
  class ByteStream {
    const data: seq<byte>
    var pos: nat

    ghost predicate Valid()
      reads this
    {
      pos <= |data|
    }

    function Rest(): seq<byte>
      requires pos <= |data|
      reads this
    {
      data[pos..]
    }

    constructor (data: seq<byte>)
      ensures Valid() && this.data == data && Rest() == data
    {
      this.data, pos := data, 0;
    }

    method ReadExact(n: nat) returns (r: Option<seq<byte>>)
      requires Valid()
      modifies this
      ensures Valid()
      ensures r == if n <= |old(Rest())| then Some(old(Rest())[..n]) else None
      ensures Rest() == if n <= |old(Rest())| then old(Rest())[n..] else []
    {
      if |data| - pos < n {
        pos := |data|;
        return None;
      }
      r := Some(data[pos..pos + n]);
      assert r.value == Rest()[..n] && data[pos + n..] == Rest()[n..];
      pos := pos + n;
    }
  }

  function Size(b: byte): nat {
    b
  }

  function PortBytes(port: u16): seq<byte> {
    [port / 256, port % 256]
  }

  function PortOf(high: byte, low: byte): u16 {
    high * 256 + low
  }

  // ----- outbound -----

  function IpBytes(ip: Ip, port: u16): seq<byte> {
    match ip
    case V4(octets) => [0x01] + octets + PortBytes(port)
    case V6(octets) => [0x04] + octets + PortBytes(port)
  }

  function AddressBytes(v6: Ipv6Text, t: TargetAddr): Result<seq<byte>, Error> {
    match ParseIp(v6, t.host)
    case Some(ip) => Ok(IpBytes(ip, t.port))
    case None =>
      var host := Encode(t.host);
      if |host| > 255 then Err(HostTooLong) else Ok([0x03, |host|] + host + PortBytes(t.port))
  }

  method EncodeIp(ip: Ip, port: u16) returns (out: seq<byte>)
    ensures out == IpBytes(ip, port)
  {
    match ip
    case V4(octets) =>
      out := [0x01];
      out := out + octets;
      out := out + PortBytes(port);
    case V6(octets) =>
      out := [0x04];
      out := out + octets;
      out := out + PortBytes(port);
  }

  method EncodeDomainOrIp(v6: Ipv6Text, t: TargetAddr) returns (r: Result<seq<byte>, Error>)
    ensures r == AddressBytes(v6, t)
  {
    var ip := ParseIp(v6, t.host);
    if ip.Some? {
      var bytes := EncodeIp(ip.value, t.port);
      return Ok(bytes);
    }
    var host := Encode(t.host);
    if |host| > 255 {
      return Err(HostTooLong);
    }
    var out: seq<byte> := [0x03];
    out := out + [|host|];
    out := out + host;
    out := out + PortBytes(t.port);
    assert out == [0x03, |host|] + host + PortBytes(t.port);
    r := Ok(out);
  }

  /** The CONNECT request written for a target. */
  function RequestBytes(v6: Ipv6Text, t: TargetAddr): Result<seq<byte>, Error> {
    match AddressBytes(v6, t)
    case Err(e) => Err(e)
    case Ok(address) => Ok([0x05, 0x01, 0x00] + address)
  }

  // ----- inbound -----

  datatype Request = Request(command: byte, target: TargetAddr)

  /** A request and what follows it. */
  datatype Read<T> = Read(value: T, rest: seq<byte>)

  function Named(host: string, port: u16): Result<TargetAddr, Error> {
    match New(host, port)
    case Ok(t) => Ok(t)
    case Err(_) => Err(BadHost)
  }

  function ReadDomain(b: seq<byte>): Result<Read<TargetAddr>, Error> {
    if |b| < 1 || |b| < 3 + Size(b[0]) then Err(Eof) else
    var n := Size(b[0]);
    match Decode(b[1..1 + n])
    case None => Err(NotUtf8)
    case Some(host) =>
      match Named(host, PortOf(b[1 + n], b[2 + n]))
      case Err(e) => Err(e)
      case Ok(t) => Ok(Read(t, b[3 + n..]))
  }

  function ReadTarget(v6: Ipv6Text, kind: byte, b: seq<byte>): Result<Read<TargetAddr>, Error> {
    if kind == 0x01 then
      if |b| < 6 then Err(Eof) else
      match Named(ShowIpv4(b[..4]), PortOf(b[4], b[5]))
      case Err(e) => Err(e)
      case Ok(t) => Ok(Read(t, b[6..]))
    else if kind == 0x03 then ReadDomain(b)
    else if kind == 0x04 then
      if |b| < 18 then Err(Eof) else
      match Named(v6.show(b[..16]), PortOf(b[16], b[17]))
      case Err(e) => Err(e)
      case Ok(t) => Ok(Read(t, b[18..]))
    else Err(BadAddressType)
  }

  function ReadRequest(v6: Ipv6Text, b: seq<byte>): Result<Read<Request>, Error> {
    if |b| < 4 then Err(Eof)
    else if b[0] != 0x05 then Err(BadVersion)
    else
      match ReadTarget(v6, b[3], b[4..])
      case Err(e) => Err(e)
      case Ok(read) => Ok(Read(Request(b[1], read.value), read.rest))
  }

  /** Reading the length, the name and the port one after the other finds them side by side. */
  lemma DomainParts(b: seq<byte>, n: nat)
    requires |b| >= 3 + n
    ensures b[1..][..n] == b[1..1 + n] && b[1..][n..][2..] == b[3 + n..]
    ensures b[1..][n..][..2] == [b[1 + n], b[2 + n]]
  {
  }

  /** A length byte, that many bytes of name, and a port. */
  method ReadSocks5Domain(client: ByteStream) returns (r: Result<TargetAddr, Error>)
    requires client.Valid()
    modifies client
    ensures client.Valid()
    ensures match ReadDomain(old(client.Rest()))
            case Err(e) => r == Err(e)
            case Ok(read) => r == Ok(read.value) && client.Rest() == read.rest
  {
    ghost var b := client.Rest();
    var len := client.ReadExact(1);
    if len == None {
      return Err(Eof);
    }
    ghost var n := Size(b[0]);
    var domain := client.ReadExact(len.value[0]);
    if domain == None {
      return Err(Eof);
    }
    var port := client.ReadExact(2);
    if port == None {
      return Err(Eof);
    }
    DomainParts(b, n);
    var host := Decode(domain.value);
    if host == None {
      return Err(NotUtf8);
    }
    return Named(host.value, PortOf(port.value[0], port.value[1]));
  }

  method ReadSocks5Target(v6: Ipv6Text, kind: byte, client: ByteStream) returns (r: Result<TargetAddr, Error>)
    requires client.Valid()
    modifies client
    ensures client.Valid()
    ensures match ReadTarget(v6, kind, old(client.Rest()))
            case Err(e) => r == Err(e)
            case Ok(read) => r == Ok(read.value) && client.Rest() == read.rest
  {
    ghost var b := client.Rest();
    if kind == 0x01 {
      var rest := client.ReadExact(6);
      if rest == None {
        return Err(Eof);
      }
      assert rest.value[..4] == b[..4];
      return Named(ShowIpv4(rest.value[..4]), PortOf(rest.value[4], rest.value[5]));
    } else if kind == 0x03 {
      r := ReadSocks5Domain(client);
      return;
    } else if kind == 0x04 {
      var rest := client.ReadExact(18);
      if rest == None {
        return Err(Eof);
      }
      assert rest.value[..16] == b[..16];
      return Named(v6.show(rest.value[..16]), PortOf(rest.value[16], rest.value[17]));
    }
    r := Err(BadAddressType);
  }

  method ReadSocks5Request(v6: Ipv6Text, client: ByteStream) returns (r: Result<Request, Error>)
    requires client.Valid()
    modifies client
    ensures client.Valid()
    ensures match ReadRequest(v6, old(client.Rest()))
            case Err(e) => r == Err(e)
            case Ok(read) => r == Ok(read.value) && client.Rest() == read.rest
  {
    var head := client.ReadExact(4);
    if head == None {
      return Err(Eof);
    }
    if head.value[0] != 0x05 {
      return Err(BadVersion);
    }
    var target := ReadSocks5Target(v6, head.value[3], client);
    r := match target
      case Err(e) => Err(e)
      case Ok(t) => Ok(Request(head.value[1], t));
  }

  // ----- the two sides undo each other -----

  /** The same place: the same port and the same host, or two spellings of one IP address. */
  predicate SameTarget(v6: Ipv6Text, a: TargetAddr, b: TargetAddr) {
    a.port == b.port && (a.host == b.host || (ParseIp(v6, a.host).Some? && ParseIp(v6, a.host) == ParseIp(v6, b.host)))
  }

  lemma LiteralNotBlank(v6: Ipv6Text, host: string)
    requires Lawful(v6) && ParseIp(v6, host).Some?
    ensures Trim(host) != []
  {
    Ipv4HasNoColon(host);
    if ParseIpv4(host).Some? {
      Ipv4Canonical(host);
    }
    assert host != [] && host[0] in host;
    TrimNonEmpty(host);
  }

  lemma Ipv4Read(v6: Ipv6Text, t: TargetAddr, rest: seq<byte>)
    requires Lawful(v6) && ParseIpv4(t.host).Some?
    ensures ReadTarget(v6, 0x01, ParseIpv4(t.host).value + PortBytes(t.port) + rest) == Ok(Read(t, rest))
  {
    var o := ParseIpv4(t.host).value;
    var b := o + PortBytes(t.port) + rest;
    assert b[..4] == o && b[6..] == rest;
    Ipv4Canonical(t.host);
    LiteralNotBlank(v6, t.host);
  }

  lemma Ipv6Read(v6: Ipv6Text, octets: seq<byte>, port: u16, rest: seq<byte>)
    requires Lawful(v6) && |octets| == 16
    ensures ReadTarget(v6, 0x04, octets + PortBytes(port) + rest) == Ok(Read(TargetAddr(v6.show(octets), port), rest))
    ensures ParseIp(v6, v6.show(octets)) == Some(V6(octets))
  {
    var b := octets + PortBytes(port) + rest;
    assert b[..16] == octets && b[18..] == rest;
    assert v6.parse(v6.show(octets)) == Some(octets);
    Ipv4HasNoColon(v6.show(octets));
    LiteralNotBlank(v6, v6.show(octets));
  }

  lemma DomainRead(v6: Ipv6Text, t: TargetAddr, rest: seq<byte>)
    requires |Encode(t.host)| <= 255
    ensures ReadTarget(v6, 0x03, [|Encode(t.host)|] + Encode(t.host) + PortBytes(t.port) + rest) ==
      if Trim(t.host) == [] then Err(BadHost) else Ok(Read(t, rest))
  {
    var host := Encode(t.host);
    var b := [|host|] + host + PortBytes(t.port) + rest;
    assert b[1..1 + |host|] == host && b[3 + |host|..] == rest;
    assert b[1 + |host|] == PortBytes(t.port)[0] && b[2 + |host|] == PortBytes(t.port)[1];
    DecodeEncode(t.host);
  }

  /** Version, command and a byte of no meaning, then the address: whatever the command is, it is the second byte. */
  lemma HeadRead(v6: Ipv6Text, command: byte, reserved: byte, address: seq<byte>, rest: seq<byte>)
    requires address != []
    ensures ReadRequest(v6, [0x05, command, reserved] + address + rest) ==
      match ReadTarget(v6, address[0], address[1..] + rest)
      case Err(e) => Err(e)
      case Ok(read) => Ok(Read(Request(command, read.value), read.rest))
  {
    var b := [0x05, command, reserved] + address + rest;
    assert b[4..] == address[1..] + rest;
  }

  /** What reading the written address must give. */
  predicate ReadsBack(v6: Ipv6Text, t: TargetAddr, r: Result<Read<TargetAddr>, Error>, rest: seq<byte>) {
    match r
    case Ok(read) => Trim(t.host) != [] && SameTarget(v6, t, read.value) && read.rest == rest
    case Err(_) => Trim(t.host) == []
  }

  lemma AddressTail(address: seq<byte>, tail: seq<byte>, rest: seq<byte>)
    requires address != [] && address == [address[0]] + tail
    ensures address[1..] + rest == tail + rest
  {
  }

  lemma IpRoundTrip(v6: Ipv6Text, t: TargetAddr, ip: Ip, rest: seq<byte>)
    requires Lawful(v6) && ParseIp(v6, t.host) == Some(ip)
    ensures var address := IpBytes(ip, t.port);
      ReadsBack(v6, t, ReadTarget(v6, address[0], address[1..] + rest), rest)
  {
    var address := IpBytes(ip, t.port);
    LiteralNotBlank(v6, t.host);
    match ip
    case V4(octets) =>
      Ipv4Read(v6, t, rest);
      AddressTail(address, octets + PortBytes(t.port), rest);
    case V6(octets) =>
      Ipv6Read(v6, octets, t.port, rest);
      AddressTail(address, octets + PortBytes(t.port), rest);
  }

  lemma NameRoundTrip(v6: Ipv6Text, t: TargetAddr, rest: seq<byte>)
    requires |Encode(t.host)| <= 255
    ensures var tail := [|Encode(t.host)|] + Encode(t.host) + PortBytes(t.port);
      ReadsBack(v6, t, ReadTarget(v6, 0x03, tail + rest), rest)
  {
    DomainRead(v6, t, rest);
  }

  lemma AddressRoundTrip(v6: Ipv6Text, t: TargetAddr, rest: seq<byte>)
    requires Lawful(v6) && AddressBytes(v6, t).Ok?
    ensures var address := AddressBytes(v6, t).value;
      address != [] && ReadsBack(v6, t, ReadTarget(v6, address[0], address[1..] + rest), rest)
  {
    match ParseIp(v6, t.host)
    case Some(ip) => IpRoundTrip(v6, t, ip, rest);
    case None =>
      NameRoundTrip(v6, t, rest);
      AddressTail(AddressBytes(v6, t).value, [|Encode(t.host)|] + Encode(t.host) + PortBytes(t.port), rest);
  }

  /** A request is written unless the host is a name of more than 255 bytes; it is read back as CONNECT to
      the same target, consuming exactly what was written, unless the host is blank. */
  lemma RequestRoundTrip(v6: Ipv6Text, t: TargetAddr, rest: seq<byte>)
    requires Lawful(v6)
    ensures RequestBytes(v6, t).Ok? <==> ParseIp(v6, t.host).Some? || |Encode(t.host)| <= 255
    ensures RequestBytes(v6, t).Ok? ==>
      match ReadRequest(v6, RequestBytes(v6, t).value + rest)
      case Ok(read) =>
        && Trim(t.host) != [] && read.value.command == 0x01
        && SameTarget(v6, t, read.value.target) && read.rest == rest
      case Err(_) => Trim(t.host) == []
  {
    if RequestBytes(v6, t).Ok? {
      AddressRoundTrip(v6, t, rest);
      HeadRead(v6, 0x01, 0x00, AddressBytes(v6, t).value, rest);
    }
  }

  /** The reader takes any name that is not blank, also one that would not survive being shown and parsed. */
  lemma NamesTaken(v6: Ipv6Text, t: TargetAddr, rest: seq<byte>)
    requires Lawful(v6) && |Encode(t.host)| <= 255 && Trim(t.host) != []
    ensures ReadTarget(v6, 0x03, [|Encode(t.host)|] + Encode(t.host) + PortBytes(t.port) + rest) == Ok(Read(t, rest))
    ensures Parse(Show(v6, t), None) == Ok(t) <==> ShowsBack(v6, t.host)
  {
    DomainRead(v6, t, rest);
    ShownTargetParses(v6, t);
  }

  /** A name that starts with a blank is read, but its target does not survive being shown. */
  lemma BlankNameTaken(v6: Ipv6Text, port: u16, rest: seq<byte>)
    requires Lawful(v6)
    ensures var t := TargetAddr(" a", port);
      && ReadTarget(v6, 0x03, [2, 0x20, 0x61] + PortBytes(port) + rest) == Ok(Read(t, rest))
      && Parse(Show(v6, t), None) != Ok(t)
  {
    var t := TargetAddr(" a", port);
    assert t.host[1..] == "a" && t.host[1..][1..] == [];
    assert Encode(t.host) == [0x20, 0x61];
    assert TrimStart(t.host) == "a" && TrimEnd("a") == "a";
    assert [2, 0x20, 0x61] == [|Encode(t.host)|] + Encode(t.host);
    NamesTaken(v6, t, rest);
  }

  /** The bytes on the wire (RFC 1928, sections 4 and 5): version 5, CONNECT, a reserved byte, then the kind of
      address, 1 with four bytes, 3 with a length and a name, 4 with sixteen bytes, and the port, high byte first. */
  lemma WireForm(v6: Ipv6Text, t: TargetAddr)
    requires Lawful(v6) && RequestBytes(v6, t).Ok?
    ensures var b := RequestBytes(v6, t).value; var n := |b|;
      && n >= 7 && b[0] == 5 && b[1] == 1 && b[2] == 0
      && Size(b[n - 2]) * 256 + Size(b[n - 1]) == t.port
      && match ParseIp(v6, t.host)
         case Some(V4(octets)) => b[3] == 1 && |octets| == 4 && b[4..n - 2] == octets
         case Some(V6(octets)) => b[3] == 4 && |octets| == 16 && b[4..n - 2] == octets
         case None => b[3] == 3 && Size(b[4]) == |Encode(t.host)| && b[5..n - 2] == Encode(t.host)
  {
    match ParseIp(v6, t.host)
    case Some(V4(octets)) => assert RequestBytes(v6, t).value == [5, 1, 0] + ([1] + octets + PortBytes(t.port));
    case Some(V6(octets)) => assert RequestBytes(v6, t).value == [5, 1, 0] + ([4] + octets + PortBytes(t.port));
    case None =>
      var host := Encode(t.host);
      assert RequestBytes(v6, t).value == [5, 1, 0] + ([3, |host|] + host + PortBytes(t.port));
  }

  // ----- greeting and reply -----

  /** The methods offered: none, and password as well if there are credentials. */
  function GreetingBytes(hasAuth: bool): seq<byte> {
    if hasAuth then [0x05, 0x02, 0x00, 0x02] else [0x05, 0x01, 0x00]
  }

  /** The inbound answer to a greeting: the bytes sent back, or the failure after sending them. */
  function AnswerGreeting(b: seq<byte>): Result<Read<seq<byte>>, Error> {
    if |b| < 2 then Err(Eof)
    else if b[0] != 0x05 then Err(BadVersion)
    else if |b| < 2 + Size(b[1]) then Err(Eof)
    else if 0x00 in b[2..2 + Size(b[1])] then Ok(Read([0x05, 0x00], b[2 + Size(b[1])..]))
    else Err(NoAcceptableMethod)
  }

  /** Of any list of methods the inbound side takes no authentication if it is offered, and gives up otherwise. */
  lemma GreetingDecides(methods: seq<byte>, rest: seq<byte>)
    requires |methods| <= 255
    ensures AnswerGreeting([0x05, |methods|] + methods + rest) ==
      if 0x00 in methods then Ok(Read([0x05, 0x00], rest)) else Err(NoAcceptableMethod)
  {
    var b := [0x05, |methods|] + methods + rest;
    assert b[2..2 + |methods|] == methods && b[2 + |methods|..] == rest;
  }

  datatype NextStep = SendRequest | SendPassword

  /** What the outbound side does with the chosen method. */
  function AfterGreeting(answer: seq<byte>, hasAuth: bool): Result<NextStep, Error>
    requires |answer| == 2
  {
    if answer[0] != 0x05 then Err(BadVersion)
    else if answer[1] == 0x00 then Ok(SendRequest)
    else if answer[1] == 0x02 && hasAuth then Ok(SendPassword)
    else Err(NoAcceptableMethod)
  }

  function ReplyBytes(code: byte): seq<byte> {
    [0x05, code, 0x00, 0x01, 0x00, 0x00, 0x00, 0x00, 0x00, 0x00]
  }

  /** How the outbound side reads a reply: success leaves exactly what follows the bound address. */
  function ReadReply(b: seq<byte>): Result<seq<byte>, Error> {
    if |b| < 4 then Err(Eof)
    else if b[0] != 0x05 then Err(BadVersion)
    else if b[1] != 0x00 then Err(Refused(b[1]))
    else if b[3] == 0x01 then if |b| < 10 then Err(Eof) else Ok(b[10..])
    else if b[3] == 0x03 then if |b| < 5 || |b| < 7 + Size(b[4]) then Err(Eof) else Ok(b[7 + Size(b[4])..])
    else if b[3] == 0x04 then if |b| < 22 then Err(Eof) else Ok(b[22..])
    else Err(BadAddressType)
  }

  /** Both sides always settle on no authentication, and a reply means success to the outbound side exactly
      when the inbound side sent code 0; nothing of what follows either message is consumed. */
  lemma HandshakeAgrees(hasAuth: bool, code: byte, rest: seq<byte>)
    ensures AnswerGreeting(GreetingBytes(hasAuth) + rest) == Ok(Read([0x05, 0x00], rest))
    ensures AfterGreeting([0x05, 0x00], hasAuth) == Ok(SendRequest)
    ensures ReadReply(ReplyBytes(code) + rest) == if code == 0x00 then Ok(rest) else Err(Refused(code))
  {
    var b := GreetingBytes(hasAuth) + rest;
    var n := Size(b[1]);
    assert b[2..2 + n][0] == 0x00 && b[2 + n..] == rest;
    assert (ReplyBytes(code) + rest)[10..] == rest;
  }
}
