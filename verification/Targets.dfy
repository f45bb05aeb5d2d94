/** Target addresses and their textual form (src/proxy.rs). */
module Targets {
  import opened Prelude
  import opened Text

  type u16 = p: int | 0 <= p < 0x1_0000

  datatype TargetAddr = TargetAddr(host: string, port: u16)

  datatype Ip = V4(octets: seq<byte>) | V6(octets: seq<byte>)

  /** The standard library's reading and printing of IPv6 literals. */
  datatype Ipv6Text = Ipv6Text(parse: string -> Option<seq<byte>>, show: seq<byte> -> string)

  predicate IsIpv6Char(c: char) {
    IsDigit(c) || 'a' <= c <= 'f' || 'A' <= c <= 'F' || c == ':' || c == '.'
  }

  /** Printed addresses read back, and a literal has colons and no characters but digits, colons and dots. */
  ghost predicate Lawful(v6: Ipv6Text) {
    && (forall o :: |o| == 16 ==> v6.parse(v6.show(o)) == Some(o))
    && (forall s :: v6.parse(s).Some? ==> |v6.parse(s).value| == 16 && ':' in s && forall c :: c in s ==> IsIpv6Char(c))
  }

  function ParseIp(v6: Ipv6Text, host: string): Option<Ip> {
    if ParseIpv4(host).Some? then Some(V4(ParseIpv4(host).value))
    else if v6.parse(host).Some? then Some(V6(v6.parse(host).value))
    else None
  }

  function New(host: string, port: u16): Result<TargetAddr, string> {
    if Trim(host) == [] then Err("empty host") else Ok(TargetAddr(host, port))
  }

  function IndexOf(s: string, c: char): (r: Option<nat>)
    ensures match r case Some(i) => i < |s| && s[i] == c && c !in s[..i] case None => c !in s
  {
    if s == [] then None
    else if s[0] == c then Some(0)
    else
      var r := IndexOf(s[1..], c);
      assert s == [s[0]] + s[1..];
      match r
      case None => None
      case Some(i) =>
        assert s[..i + 1] == [s[0]] + s[1..][..i];
        Some(i + 1)
  }

  function LastIndexOf(s: string, c: char): (r: Option<nat>)
    ensures match r case Some(i) => i < |s| && s[i] == c && c !in s[i + 1..] case None => c !in s
  {
    if s == [] then None
    else if s[|s| - 1] == c then Some(|s| - 1)
    else
      var r := LastIndexOf(s[..|s| - 1], c);
      assert s == s[..|s| - 1] + [s[|s| - 1]];
      match r
      case None => None
      case Some(i) =>
        assert s[i + 1..] == s[..|s| - 1][i + 1..] + [s[|s| - 1]];
        Some(i)
  }

  function WithDefault(host: string, port: Option<u16>): Result<TargetAddr, string> {
    if port.Some? then New(host, port.value) else Err("missing port")
  }

  function WithPort(host: string, port: string): Result<TargetAddr, string> {
    match ParseUnsigned(port, 0x1_0000)
    case None => Err("invalid port")
    case Some(p) => New(host, p)
  }

  function Parse(authority: string, defaultPort: Option<u16>): Result<TargetAddr, string> {
    var a := Trim(authority);
    if a == [] then Err("empty authority")
    else if a[0] == '[' then ParseBracketed(a[1..], defaultPort)
    else
      match LastIndexOf(a, ':')
      case Some(i) => if ':' !in a[..i] then WithPort(a[..i], a[i + 1..]) else WithDefault(a, defaultPort)
      case None => WithDefault(a, defaultPort)
  }

  /** What follows an opening bracket: the host up to the closing one, and a port if a colon comes next. */
  function ParseBracketed(rest: string, defaultPort: Option<u16>): Result<TargetAddr, string> {
    match IndexOf(rest, ']')
    case None => Err("invalid IPv6 authority")
    case Some(end) =>
      var after := rest[end + 1..];
      if after != [] && after[0] == ':' then WithPort(rest[..end], after[1..])
      else WithDefault(rest[..end], defaultPort)
  }

  function Show(v6: Ipv6Text, t: TargetAddr): string {
    if ':' in t.host && ParseIp(v6, t.host).Some?
    then "[" + t.host + "]:" + Decimal(t.port)
    else t.host + ":" + Decimal(t.port)
  }

  /** Which hosts survive being shown and parsed again. */
  predicate ShowsBack(v6: Ipv6Text, host: string) {
    && host != [] && !IsWhitespace(host[0]) && host[0] != '['
    && (':' in host ==> ParseIp(v6, host).Some?)
  }

  lemma {:induction false} TrimEndKeeps(s: string)
    requires s != [] && !IsWhitespace(s[|s| - 1])
    ensures TrimEnd(s) == s
  {
  }

  lemma TrimKeeps(s: string)
    requires s != [] && !IsWhitespace(s[0]) && !IsWhitespace(s[|s| - 1])
    ensures Trim(s) == s
  {
  }

  lemma {:induction false} TrimNonEmpty(s: string)
    requires s != [] && !IsWhitespace(s[0])
    ensures TrimEnd(s) != [] && Trim(s) != []
  {
    if IsWhitespace(s[|s| - 1]) {
      TrimNonEmpty(s[..|s| - 1]);
    }
  }

  lemma DecimalEnds(s: string, n: nat)
    ensures (s + Decimal(n)) != [] && !IsWhitespace((s + Decimal(n))[|s + Decimal(n)| - 1])
    ensures ':' !in Decimal(n) && ']' !in Decimal(n)
  {
    var d := Decimal(n);
    assert d[|d| - 1] in d;
    assert (s + d)[|s + d| - 1] == d[|d| - 1];
  }

  lemma {:induction false} IndexIs(s: string, c: char, i: nat)
    requires i < |s| && s[i] == c && c !in s[..i]
    ensures IndexOf(s, c) == Some(i)
  {
    if i > 0 {
      assert s[..i] == [s[0]] + s[1..][..i - 1];
      IndexIs(s[1..], c, i - 1);
    }
  }

  lemma {:induction false} LastIndexIs(s: string, c: char, i: nat)
    requires i < |s| && s[i] == c && c !in s[i + 1..]
    ensures LastIndexOf(s, c) == Some(i)
  {
    if i < |s| - 1 {
      assert s[i + 1..] == s[..|s| - 1][i + 1..] + [s[|s| - 1]];
      LastIndexIs(s[..|s| - 1], c, i);
    }
  }

  /** A name and a port separated by the only colon. */
  lemma ParsePlain(host: string, port: u16)
    requires host != [] && !IsWhitespace(host[0]) && host[0] != '['
    ensures Parse(host + ":" + Decimal(port), None) ==
      if ':' in host then Err("missing port") else Ok(TargetAddr(host, port))
  {
    var d := Decimal(port);
    var a := host + ":" + d;
    DecimalEnds(host + ":", port);
    TrimKeeps(a);
    DecimalParses(port, 0x1_0000);
    assert a[..|host|] == host && a[|host| + 1..] == d;
    LastIndexIs(a, ':', |host|);
    TrimNonEmpty(host);
  }

  lemma ParseLiteral(v6: Ipv6Text, host: string, port: u16)
    requires Lawful(v6) && v6.parse(host).Some?
    ensures Parse("[" + host + "]:" + Decimal(port), None) == Ok(TargetAddr(host, port))
  {
    assert host != [] && host[0] in host;
    TrimNonEmpty(host);
    BracketWithPort(host, port, None);
  }

  lemma BracketPort(rest: string, host: string, port: u16, default: Option<u16>)
    requires IndexOf(rest, ']') == Some(|host|) && rest == host + "]:" + Decimal(port)
    requires Trim(host) != []
    ensures ParseBracketed(rest, default) == Ok(TargetAddr(host, port))
  {
    var after := rest[|host| + 1..];
    assert rest[..|host|] == host && after == ":" + Decimal(port) && after[1..] == Decimal(port);
    DecimalParses(port, 0x1_0000);
  }

  lemma {:induction false} TrimStartSplits(s: string) returns (k: nat)
    ensures k <= |s| && TrimStart(s) == s[k..] && forall i :: 0 <= i < k ==> IsWhitespace(s[i])
    ensures k < |s| ==> !IsWhitespace(s[k])
  {
    if s != [] && IsWhitespace(s[0]) {
      var j := TrimStartSplits(s[1..]);
      k := j + 1;
      assert s[1..][j..] == s[k..];
      forall i | 0 <= i < k
        ensures IsWhitespace(s[i])
      {
        assert i > 0 ==> s[i] == s[1..][i - 1];
      }
    } else {
      k := 0;
      assert s[0..] == s;
    }
  }

  lemma {:induction false} TrimStartAppend(s: string, tail: string)
    requires tail != [] && !IsWhitespace(tail[0])
    ensures TrimStart(s + tail) == TrimStart(s) + tail
  {
    if s == [] {
      assert s + tail == tail;
    } else if IsWhitespace(s[0]) {
      assert (s + tail)[1..] == s[1..] + tail;
      TrimStartAppend(s[1..], tail);
    }
  }

  /** A host behind k blanks is not what stands between the brackets of its own authority: each colon
      would need another one k + 1 places before it, so the two differ somewhere. */
  lemma {:induction false} ColonChain(host: string, k: nat, a: string, q: nat) returns (i: nat)
    requires k < |host| && (forall i :: 0 <= i < k ==> IsWhitespace(host[i])) && host[k] == '['
    requires |a| > |host| - k && a[..|host| - k] == host[k..]
    requires 1 <= q <= |host| - k && a[q] == ':'
    ensures i < |host| && (i + 1 < |a| ==> a[i + 1] != host[i])
    decreases q
  {
    i := q - 1;
    if host[i] == ':' {
      var p := i - k;
      assert host[k..][p] == host[i];
      assert a[..|host| - k][p] == a[p];
      i := ColonChain(host, k, a, p);
    }
  }

  lemma BracketNeverRestores(host: string, k: nat, port: u16)
    requires k < |host| && (forall i :: 0 <= i < k ==> IsWhitespace(host[i])) && host[k] == '['
    ensures var a := host[k..] + ":" + Decimal(port); ParseBracketed(a[1..], None) != Ok(TargetAddr(host, port))
  {
    var a := host[k..] + ":" + Decimal(port);
    var rest := a[1..];
    assert a[..|host| - k] == host[k..] && a[|host| - k] == ':';
    var i := ColonChain(host, k, a, |host| - k);
    if IndexOf(rest, ']').Some? {
      var end := IndexOf(rest, ']').value;
      DiffersAt(rest, end, host, i);
    }
  }

  lemma DiffersAt(rest: string, end: nat, host: string, i: nat)
    requires end <= |rest| && i < |host| && (i < |rest| ==> rest[i] != host[i])
    ensures rest[..end] != host
  {
    if end == |host| {
      assert rest[..end][i] == rest[i];
    }
  }

  /** Trimming takes off the blanks in front of the host. */
  lemma TrimLosesBlanks(host: string, port: u16) returns (k: nat)
    ensures k <= |host| && (forall i :: 0 <= i < k ==> IsWhitespace(host[i]))
    ensures k < |host| ==> !IsWhitespace(host[k])
    ensures Trim(host + ":" + Decimal(port)) == host[k..] + ":" + Decimal(port)
  {
    var tail := ":" + Decimal(port);
    k := TrimStartSplits(host);
    TrimStartAppend(host, tail);
    assert host + ":" + Decimal(port) == host + tail;
    var a := host[k..] + ":" + Decimal(port);
    assert TrimStart(host + tail) == a;
    DecimalEnds(host[k..] + ":", port);
    TrimEndKeeps(a);
  }

  /** Parsing looks only at the trimmed authority. */
  lemma ParseTrimmed(authority: string, a: string)
    requires Trim(authority) == a && Trim(a) == a
    ensures Parse(authority, None) == Parse(a, None)
  {
  }

  /** Blanks in front of the host are lost. */
  lemma BlankLost(host: string, port: u16)
    requires host != [] && IsWhitespace(host[0])
    ensures Parse(host + ":" + Decimal(port), None) != Ok(TargetAddr(host, port))
  {
    var k := TrimLosesBlanks(host, port);
    var a := host[k..] + ":" + Decimal(port);
    DecimalEnds(host[k..] + ":", port);
    TrimKeeps(a);
    ParseTrimmed(host + ":" + Decimal(port), a);
    if k == |host| {
      assert a == ":" + Decimal(port);
      ParseNoHost(port);
    } else if host[k] == '[' {
      BracketNeverRestores(host, k, port);
    } else {
      ParsePlain(host[k..], port);
    }
  }

  lemma ParseNoHost(port: u16)
    ensures Parse(":" + Decimal(port), None).Err?
  {
    var a := ":" + Decimal(port);
    DecimalEnds(":", port);
    TrimKeeps(a);
    assert a[1..] == Decimal(port) && a[..0] == [];
    LastIndexIs(a, ':', 0);
  }

  lemma ShownNameParses(host: string, port: u16)
    ensures Parse(host + ":" + Decimal(port), None) == Ok(TargetAddr(host, port)) <==>
      host != [] && !IsWhitespace(host[0]) && host[0] != '[' && ':' !in host
  {
    var a := host + ":" + Decimal(port);
    if host == [] {
      assert a == ":" + Decimal(port);
      ParseNoHost(port);
    } else if IsWhitespace(host[0]) {
      BlankLost(host, port);
    } else if host[0] == '[' {
      DecimalEnds(host + ":", port);
      TrimKeeps(a);
      assert host[0..] == host;
      BracketNeverRestores(host, 0, port);
    } else {
      ParsePlain(host, port);
    }
  }

  /** Showing a target and parsing it gives it back exactly if its host is not empty, starts with neither a
      blank nor a bracket, and has no colon unless it is an IP literal. */
  lemma ShownTargetParses(v6: Ipv6Text, t: TargetAddr)
    requires Lawful(v6)
    ensures Parse(Show(v6, t), None) == Ok(t) <==> ShowsBack(v6, t.host)
  {
    if ':' in t.host && ParseIp(v6, t.host).Some? {
      Ipv4HasNoColon(t.host);
      ParseLiteral(v6, t.host, t.port);
      assert t.host[0] in t.host;
    } else {
      ShownNameParses(t.host, t.port);
    }
  }

  // ----- hosts with a default port -----

  /** A trimmed authority says what it spells: a name alone, a name and a port, a bracketed host alone, or a
      bracketed host and a port. */
  lemma NameAlone(host: string, port: u16)
    requires host != [] && Trim(host) == host && host[0] != '[' && ':' !in host
    ensures Parse(host, Some(port)) == Ok(TargetAddr(host, port)) && Parse(host, None).Err?
  {
  }

  lemma NameWithPort(host: string, port: u16, default: Option<u16>)
    requires host != [] && !IsWhitespace(host[0]) && host[0] != '[' && ':' !in host
    ensures Parse(host + ":" + Decimal(port), default) == Ok(TargetAddr(host, port))
  {
    var d := Decimal(port);
    var a := host + ":" + d;
    DecimalEnds(host + ":", port);
    TrimKeeps(a);
    DecimalParses(port, 0x1_0000);
    assert a[..|host|] == host && a[|host| + 1..] == d;
    LastIndexIs(a, ':', |host|);
    TrimNonEmpty(host);
  }

  lemma BracketFirst(a: string, default: Option<u16>)
    requires a != [] && a[0] == '[' && Trim(a) == a
    ensures Parse(a, default) == ParseBracketed(a[1..], default)
  {
  }

  lemma BracketAlone(host: string, port: u16)
    requires Trim(host) != [] && ']' !in host
    ensures Parse("[" + host + "]", Some(port)) == Ok(TargetAddr(host, port))
    ensures Parse("[" + host + "]", None).Err?
  {
    var a := "[" + host + "]";
    TrimKeeps(a);
    BracketFirst(a, Some(port));
    BracketFirst(a, None);
    var rest := a[1..];
    assert rest == host + "]" && rest[..|host|] == host && rest[|host| + 1..] == [];
    IndexIs(rest, ']', |host|);
  }

  lemma BracketTrimmed(host: string, port: u16)
    ensures var a := "[" + host + "]:" + Decimal(port);
      a[0] == '[' && Trim(a) == a && a[1..] == host + "]:" + Decimal(port)
  {
    DecimalEnds("[" + host + "]:", port);
    TrimKeeps("[" + host + "]:" + Decimal(port));
  }

  lemma BracketWithPort(host: string, port: u16, default: Option<u16>)
    requires Trim(host) != [] && ']' !in host
    ensures Parse("[" + host + "]:" + Decimal(port), default) == Ok(TargetAddr(host, port))
  {
    var a, rest := "[" + host + "]:" + Decimal(port), host + "]:" + Decimal(port);
    BracketTrimmed(host, port);
    BracketFirst(a, default);
    assert rest[..|host|] == host;
    IndexIs(rest, ']', |host|);
    BracketPort(rest, host, port, default);
  }

  lemma {:induction false} JoinMembers(parts: seq<string>, c: char, x: char)
    requires |parts| >= 1 && x in JoinWith(parts, c)
    ensures x == c || exists i :: 0 <= i < |parts| && x in parts[i]
  {
    if |parts| > 1 && x !in parts[0] && x != c {
      assert x in JoinWith(parts[1..], c);
      JoinMembers(parts[1..], c, x);
      var i :| 0 <= i < |parts[1..]| && x in parts[1..][i];
      assert x in parts[i + 1];
    }
  }

  /** An IPv4 literal is digits and dots. */
  lemma Ipv4HasNoColon(s: string)
    ensures ParseIpv4(s).Some? ==> forall c :: c in s ==> IsDigit(c) || c == '.'
  {
    if ParseIpv4(s).Some? {
      SplitJoins(s, '.');
      forall c | c in s
        ensures IsDigit(c) || c == '.'
      {
        JoinMembers(Split(s, '.'), '.', c);
      }
    }
  }
}
