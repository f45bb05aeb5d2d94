/** Proxy nodes, their keys, and their form in the saved pool state (src/proxy.rs). */
module ProxyNodes {
  import opened Prelude
  import opened Text

  datatype HostPort = HostPort(host: string, port: nat)

  datatype Credentials = Credentials(username: string, password: Option<string>)

  /** A Shadowsocks server address: an IP socket address, or a name kept as written. */
  datatype ServerAddr =
    | SocketV4(ip: string, v4Port: nat)
    | SocketV6(ip: string, v6Port: nat)
    | DomainName(name: string, port: nat)
  {
    function Host(): string {
      match this
      case SocketV4(ip, _) => ip
      case SocketV6(ip, _) => ip
      case DomainName(name, _) => name
    }

    function Port(): nat {
      match this
      case SocketV4(_, port) => port
      case SocketV6(_, port) => port
      case DomainName(_, port) => port
    }

    function Show(): string {
      match this
      case SocketV6(ip, port) => "[" + ip + "]:" + Decimal(port)
      case _ => Host() + ":" + Decimal(Port())
    }
  }

  datatype ServerConfig = ServerConfig(addr: ServerAddr, cipher: string, password: string)

  datatype ProxyNode =
    | Http(addr: HostPort, auth: Option<Credentials>)
    | Https(addr: HostPort, auth: Option<Credentials>, sni: Option<string>, skipCertVerify: bool)
    | Socks5(addr: HostPort, auth: Option<Credentials>, remoteDns: bool)
    | Socks4(addr: HostPort, auth: Option<Credentials>, remoteDns: bool)
    | Shadowsocks(server: ServerConfig, title: string)
    | LocalMihomo(addr: HostPort, title: string, generation: nat)
    | Meow(key: string, title: string, source: string)

  datatype PersistedNode =
    | PersistedHttp(addr: HostPort, auth: Option<Credentials>)
    | PersistedHttps(addr: HostPort, auth: Option<Credentials>, sni: Option<string>, skipCertVerify: bool)
    | PersistedSocks5(addr: HostPort, auth: Option<Credentials>, remoteDns: bool)
    | PersistedSocks4(addr: HostPort, auth: Option<Credentials>, remoteDns: bool)
    | PersistedShadowsocks(host: string, port: nat, cipher: string, password: string, title: string)
    | PersistedMeow(source: string)

  /** What the surrounding libraries decide: which hosts read as IPv6 addresses, which Shadowsocks
      settings build, and the key and title (label) of the node built from a complex-proxy source. */
  datatype Library = Library(
    isIpv6: string -> bool,
    shadowsocksBuilds: (string, string) -> bool,
    buildMeow: string -> Option<(string, string)>)

  function ShowHostPort(lib: Library, addr: HostPort): string {
    if ':' in addr.host && lib.isIpv6(addr.host) then "[" + addr.host + "]:" + Decimal(addr.port)
    else addr.host + ":" + Decimal(addr.port)
  }

  function AuthKey(auth: Option<Credentials>): string {
    match auth
    case None => ""
    case Some(c) => c.username + ":" + (if c.password.Some? then c.password.value else "") + "@"
  }

  function NodeKey(lib: Library, node: ProxyNode): string {
    match node
    case Http(addr, auth) => "http://" + AuthKey(auth) + ShowHostPort(lib, addr)
    case Https(addr, auth, sni, skip) =>
      "https://" + AuthKey(auth) + ShowHostPort(lib, addr)
      + "?sni=" + (if sni.Some? then sni.value else "")
      + "&skip-cert-verify=" + (if skip then "true" else "false")
    case Socks5(addr, auth, remoteDns) =>
      (if remoteDns then "socks5h" else "socks5") + "://" + AuthKey(auth) + ShowHostPort(lib, addr)
    case Socks4(addr, auth, remoteDns) =>
      (if remoteDns then "socks4a" else "socks4") + "://" + AuthKey(auth) + ShowHostPort(lib, addr)
    case Shadowsocks(server, _) => "ss://" + server.cipher + "@" + server.addr.Show()
    case LocalMihomo(addr, title, generation) =>
      "mihomo://" + Decimal(generation) + "/" + title + "@" + ShowHostPort(lib, addr)
    case Meow(key, _, _) => key
  }

  /** The saved form of a node; local mihomo listeners are not saved. */
  function Persist(node: ProxyNode): Option<PersistedNode> {
    match node
    case Http(addr, auth) => Some(PersistedHttp(addr, auth))
    case Https(addr, auth, sni, skip) => Some(PersistedHttps(addr, auth, sni, skip))
    case Socks5(addr, auth, remoteDns) => Some(PersistedSocks5(addr, auth, remoteDns))
    case Socks4(addr, auth, remoteDns) => Some(PersistedSocks4(addr, auth, remoteDns))
    case Shadowsocks(server, title) =>
      Some(PersistedShadowsocks(server.addr.Host(), server.addr.Port(), server.cipher, server.password, title))
    case LocalMihomo(_, _, _) => None
    case Meow(_, _, source) => Some(PersistedMeow(source))
  }

  function Restore(lib: Library, saved: PersistedNode): Option<ProxyNode> {
    match saved
    case PersistedHttp(addr, auth) => Some(Http(addr, auth))
    case PersistedHttps(addr, auth, sni, skip) => Some(Https(addr, auth, sni, skip))
    case PersistedSocks5(addr, auth, remoteDns) => Some(Socks5(addr, auth, remoteDns))
    case PersistedSocks4(addr, auth, remoteDns) => Some(Socks4(addr, auth, remoteDns))
    case PersistedShadowsocks(host, port, cipher, password, title) =>
      if lib.shadowsocksBuilds(cipher, password)
      then Some(Shadowsocks(ServerConfig(DomainName(host, port), cipher, password), title))
      else None
    case PersistedMeow(source) =>
      match lib.buildMeow(source)
      case None => None
      case Some(built) => Some(Meow(built.0, built.1, source))
  }

  /** Which nodes come back under the key they were saved with. */
  predicate Restorable(lib: Library, node: ProxyNode) {
    match node
    case Shadowsocks(server, _) => !server.addr.SocketV6? && lib.shadowsocksBuilds(server.cipher, server.password)
    case Meow(key, _, source) => lib.buildMeow(source).Some? && lib.buildMeow(source).value.0 == key
    case _ => true
  }

  lemma RestoredKey(lib: Library, node: ProxyNode)
    requires Persist(node).Some?
    ensures var back := Restore(lib, Persist(node).value);
      (back.Some? && NodeKey(lib, back.value) == NodeKey(lib, node)) <==> Restorable(lib, node)
  {
    if node.Shadowsocks? && node.server.addr.SocketV6? {
      var cipher, ip, port := node.server.cipher, node.server.addr.ip, Decimal(node.server.addr.v6Port);
      assert |"ss://" + cipher + "@" + ("[" + ip + "]:" + port)| != |"ss://" + cipher + "@" + (ip + ":" + port)|;
    }
  }

  /** Saving a restored node gives back the saved form it came from. */
  lemma RestoredPersists(lib: Library, saved: PersistedNode)
    ensures var back := Restore(lib, saved); back.Some? ==> Persist(back.value) == Some(saved)
  {
  }

  /** A Shadowsocks server given as an IPv6 socket address changes its key across a restart. */
  lemma Ipv6ShadowsocksKeyChanges(lib: Library)
    requires lib.shadowsocksBuilds("aes-256-gcm", "pw")
    ensures var node := Shadowsocks(ServerConfig(SocketV6("::1", 8388), "aes-256-gcm", "pw"), "ss");
      var back := Restore(lib, Persist(node).value);
      back.Some? && NodeKey(lib, back.value) != NodeKey(lib, node)
  {
    RestoredKey(lib, Shadowsocks(ServerConfig(SocketV6("::1", 8388), "aes-256-gcm", "pw"), "ss"));
  }

  // ----- which nodes share a key -----

  lemma CutFirst(a: string, x: string, b: string, y: string, c: char)
    requires a + [c] + x == b + [c] + y && c !in a && c !in b
    ensures a == b && x == y
  {
    SplitCut(a, x, c);
    SplitCut(b, y, c);
    assert (a + [c] + x)[|a| + 1..] == x && (b + [c] + y)[|b| + 1..] == y;
  }

  /** Where the first c stands. */
  lemma {:induction false} SplitCut(a: string, x: string, c: char)
    requires c !in a
    ensures Split(a + [c] + x, c)[0] == a
  {
    SplitFirst(a, x, c);
  }

  lemma NoneAfter(a: string, x: string, c: char)
    requires c !in x
    ensures (a + [c] + x)[|a|] == c && forall i :: |a| < i < |a + [c] + x| ==> (a + [c] + x)[i] != c
  {
    assert forall i :: |a| < i < |a + [c] + x| ==> (a + [c] + x)[i] == x[i - |a| - 1];
  }

  lemma CutLast(a: string, x: string, b: string, y: string, c: char)
    requires a + [c] + x == b + [c] + y && c !in x && c !in y
    ensures a == b && x == y
  {
    var s := a + [c] + x;
    NoneAfter(a, x, c);
    NoneAfter(b, y, c);
    assert |a| == |b|;
    assert s[..|a|] == a && s[|a| + 1..] == x && s[..|b|] == b && s[|b| + 1..] == y;
  }

  predicate TidyHost(host: string) {
    '@' !in host && (host != [] ==> host[0] != '[')
  }

  lemma AddressesApart(lib: Library, a: HostPort, b: HostPort)
    requires TidyHost(a.host) && TidyHost(b.host) && ShowHostPort(lib, a) == ShowHostPort(lib, b)
    ensures a == b
  {
    var shownA := if ':' in a.host && lib.isIpv6(a.host) then "[" + a.host + "]" else a.host;
    var shownB := if ':' in b.host && lib.isIpv6(b.host) then "[" + b.host + "]" else b.host;
    assert ShowHostPort(lib, a) == shownA + [':'] + Decimal(a.port);
    assert ShowHostPort(lib, b) == shownB + [':'] + Decimal(b.port);
    CutLast(shownA, Decimal(a.port), shownB, Decimal(b.port), ':');
    DecimalValue(a.port);
    DecimalValue(b.port);
    assert a.host == if shownA != a.host then shownA[1..|shownA| - 1] else shownA;
    assert b.host == if shownB != b.host then shownB[1..|shownB| - 1] else shownB;
    assert shownA != a.host ==> shownA[0] == '[';
    assert shownB != b.host ==> shownB[0] == '[';
  }

  function PasswordText(c: Credentials): string {
    if c.password.Some? then c.password.value else ""
  }

  /** The same user with the same password; no password and an empty one are the same. */
  predicate SameLogin(a: Option<Credentials>, b: Option<Credentials>) {
    match (a, b)
    case (None, None) => true
    case (Some(x), Some(y)) => x.username == y.username && PasswordText(x) == PasswordText(y)
    case _ => false
  }

  predicate TidyLogin(a: Option<Credentials>) {
    a.Some? ==> ':' !in a.value.username
  }

  lemma LoginsApart(lib: Library, a: Option<Credentials>, x: string, b: Option<Credentials>, y: string)
    requires TidyLogin(a) && TidyLogin(b) && '@' !in x && '@' !in y && AuthKey(a) + x == AuthKey(b) + y
    ensures SameLogin(a, b) && x == y
  {
    assert a.Some? ==> '@' in AuthKey(a) + x by {
      if a.Some? {
        assert AuthKey(a)[|AuthKey(a)| - 1] == '@' && AuthKey(a)[|AuthKey(a)| - 1] in AuthKey(a);
      }
    }
    assert b.Some? ==> '@' in AuthKey(b) + y by {
      if b.Some? {
        assert AuthKey(b)[|AuthKey(b)| - 1] == '@' && AuthKey(b)[|AuthKey(b)| - 1] in AuthKey(b);
      }
    }
    assert a.None? ==> AuthKey(a) + x == x;
    assert b.None? ==> AuthKey(b) + y == y;
    if a.Some? && b.Some? {
      var left := a.value.username + ":" + PasswordText(a.value);
      var right := b.value.username + ":" + PasswordText(b.value);
      assert AuthKey(a) + x == left + ['@'] + x && AuthKey(b) + y == right + ['@'] + y;
      CutLast(left, x, right, y, '@');
      CutFirst(a.value.username, PasswordText(a.value), b.value.username, PasswordText(b.value), ':');
    }
  }

  lemma ShownTidy(lib: Library, a: HostPort)
    requires TidyHost(a.host)
    ensures '@' !in ShowHostPort(lib, a)
  {
  }

  /** What stands behind the scheme of a plain node. */
  lemma EndpointsApart(lib: Library, a: HostPort, x: Option<Credentials>, b: HostPort, y: Option<Credentials>)
    requires TidyHost(a.host) && TidyHost(b.host) && TidyLogin(x) && TidyLogin(y)
    ensures AuthKey(x) + ShowHostPort(lib, a) == AuthKey(y) + ShowHostPort(lib, b) <==> a == b && SameLogin(x, y)
  {
    ShownTidy(lib, a);
    ShownTidy(lib, b);
    if AuthKey(x) + ShowHostPort(lib, a) == AuthKey(y) + ShowHostPort(lib, b) {
      LoginsApart(lib, x, ShowHostPort(lib, a), y, ShowHostPort(lib, b));
      AddressesApart(lib, a, b);
    }
  }

  function Scheme(node: ProxyNode): string
    requires node.Http? || node.Https? || node.Socks5? || node.Socks4?
  {
    match node
    case Http(_, _) => "http"
    case Https(_, _, _, _) => "https"
    case Socks5(_, _, remoteDns) => if remoteDns then "socks5h" else "socks5"
    case Socks4(_, _, remoteDns) => if remoteDns then "socks4a" else "socks4"
  }

  function SniText(node: ProxyNode): string
    requires node.Https?
  {
    if node.sni.Some? then node.sni.value else ""
  }

  function Endpoint(lib: Library, node: ProxyNode): string
    requires node.Http? || node.Https? || node.Socks5? || node.Socks4?
  {
    AuthKey(node.auth) + ShowHostPort(lib, node.addr)
  }

  function TlsText(node: ProxyNode): string
    requires node.Https?
  {
    "sni=" + SniText(node) + "&skip-cert-verify=" + if node.skipCertVerify then "true" else "false"
  }

  lemma Regroup(a: string, b: string, c: string, d: string, e: string, f: string, g: string)
    ensures a + b + c + d + e + f + g == a + (b + c + (d + e + f + g))
  {
  }

  lemma SecureKeyParts(lib: Library, node: ProxyNode)
    requires node.Https?
    ensures NodeKey(lib, node) == "https://" + (Endpoint(lib, node) + ("?" + TlsText(node)))
  {
    var flag := if node.skipCertVerify then "true" else "false";
    Regroup("https://", AuthKey(node.auth), ShowHostPort(lib, node.addr),
      "?sni=", SniText(node), "&skip-cert-verify=", flag);
    assert "?sni=" + SniText(node) + "&skip-cert-verify=" + flag == "?" + TlsText(node);
  }

  /** What a key says behind its scheme. */
  function Behind(lib: Library, node: ProxyNode): string
    requires node.Http? || node.Https? || node.Socks5? || node.Socks4?
  {
    if node.Https? then Endpoint(lib, node) + ("?" + TlsText(node)) else Endpoint(lib, node)
  }

  lemma PlainKeyParts(lib: Library, node: ProxyNode)
    requires node.Http? || node.Socks5? || node.Socks4?
    ensures NodeKey(lib, node) == Scheme(node) + "://" + Endpoint(lib, node)
  {
    assert node.Http? ==> "http" + "://" == "http://";
    var prefix := Scheme(node) + "://";
    assert prefix + AuthKey(node.auth) + ShowHostPort(lib, node.addr) == prefix + Endpoint(lib, node);
  }

  lemma SchemeCut(scheme: string, rest: string)
    ensures scheme + "://" + rest == scheme + [':'] + ("//" + rest)
  {
  }

  lemma KeyParts(lib: Library, node: ProxyNode)
    requires node.Http? || node.Https? || node.Socks5? || node.Socks4?
    ensures NodeKey(lib, node) == Scheme(node) + [':'] + ("//" + Behind(lib, node))
  {
    if node.Https? {
      SecureKeyParts(lib, node);
      assert "https" + "://" == "https://";
    } else {
      PlainKeyParts(lib, node);
    }
    SchemeCut(Scheme(node), Behind(lib, node));
  }

  lemma SchemeHasNoColon(node: ProxyNode)
    requires node.Http? || node.Https? || node.Socks5? || node.Socks4?
    ensures ':' !in Scheme(node)
  {
  }

  lemma TlsApart(m: ProxyNode, n: ProxyNode)
    requires m.Https? && n.Https? && TlsText(m) == TlsText(n)
    ensures SniText(m) == SniText(n) && m.skipCertVerify == n.skipCertVerify
  {
    var a, b := "sni=" + SniText(m) + "&skip-cert-verify", "sni=" + SniText(n) + "&skip-cert-verify";
    var x, y := if m.skipCertVerify then "true" else "false", if n.skipCertVerify then "true" else "false";
    assert TlsText(m) == a + ['='] + x && TlsText(n) == b + ['='] + y;
    CutLast(a, x, b, y, '=');
    assert |a| == |b|;
    assert a[4..4 + |SniText(m)|] == SniText(m) && b[4..4 + |SniText(n)|] == SniText(n);
  }

  predicate Tidy(node: ProxyNode) {
    (node.Http? || node.Https? || node.Socks5? || node.Socks4?)
    && TidyHost(node.addr.host) && TidyLogin(node.auth) && (node.Https? ==> '?' !in SniText(node))
  }

  /** Two HTTP or SOCKS nodes with hosts free of '@' and a leading bracket, user names free of ':' and server names
      free of '?' share a key exactly if they agree in scheme, address, login, and for HTTPS in server name and
      certificate check; no password counts as an empty one, no server name as an empty one. */
  lemma KeysShared(lib: Library, m: ProxyNode, n: ProxyNode)
    requires Tidy(m) && Tidy(n)
    ensures NodeKey(lib, m) == NodeKey(lib, n) <==>
      && Scheme(m) == Scheme(n) && m.addr == n.addr && SameLogin(m.auth, n.auth)
      && (m.Https? ==> SniText(m) == SniText(n) && m.skipCertVerify == n.skipCertVerify)
  {
    KeyParts(lib, m);
    KeyParts(lib, n);
    SchemeHasNoColon(m);
    SchemeHasNoColon(n);
    EndpointsApart(lib, m.addr, m.auth, n.addr, n.auth);
    if NodeKey(lib, m) == NodeKey(lib, n) {
      CutFirst(Scheme(m), "//" + Behind(lib, m), Scheme(n), "//" + Behind(lib, n), ':');
      assert ("//" + Behind(lib, m))[2..] == Behind(lib, m) && ("//" + Behind(lib, n))[2..] == Behind(lib, n);
      if m.Https? {
        SecureParts(lib, m, n);
      }
    }
  }

  lemma SecureParts(lib: Library, m: ProxyNode, n: ProxyNode)
    requires m.Https? && n.Https? && '?' !in SniText(m) && '?' !in SniText(n)
    requires Behind(lib, m) == Behind(lib, n)
    ensures Endpoint(lib, m) == Endpoint(lib, n)
    ensures SniText(m) == SniText(n) && m.skipCertVerify == n.skipCertVerify
  {
    var a, b := Endpoint(lib, m), Endpoint(lib, n);
    assert Behind(lib, m) == a + ['?'] + TlsText(m) && Behind(lib, n) == b + ['?'] + TlsText(n);
    CutLast(a, TlsText(m), b, TlsText(n), '?');
    TlsApart(m, n);
  }
}
