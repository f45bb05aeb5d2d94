/** Inbound HTTP requests and the CONNECT request written for them (src/server.rs, src/outbound.rs). */
module HttpRequests {
  import opened Prelude
  import opened Text
  import opened Utf8
  import opened Targets
  import ProxyNodes

  const CRLF: string := "\r\n"
  const CRLF_BYTES: seq<byte> := [13, 10]
  const HEADER_LIMIT: nat := 65536

  /** A request ready to be relayed. */
  datatype Parsed = Parsed(target: TargetAddr, isConnect: bool, forwardBytes: seq<byte>)

  /** What a URL library makes of an absolute request target: host, port, and path with query. */
  datatype AbsoluteUri = AbsoluteUri(host: string, port: u16, origin: string)

  type Urls = string -> Option<AbsoluteUri>

  /** The origin of a URL is one word that is not itself absolute. */
  ghost predicate LawfulUrls(urls: Urls) {
    forall s :: urls(s).Some? ==> IsWord(urls(s).value.origin) && !IsAbsolute(urls(s).value.origin)
  }

  // ---- Reading a header block ----

  predicate StartsCrlf(b: seq<byte>) {
    |b| >= 2 && b[0] == 13 && b[1] == 10
  }

  /** The length of the header block, up to and including the first empty line. */
  function HeaderEnd(b: seq<byte>): (r: Option<nat>)
    ensures r.Some? ==> 4 <= r.value <= |b|
  {
    if b == [] then None
    else if StartsCrlf(b) && StartsCrlf(b[2..]) then Some(4)
    else
      match HeaderEnd(b[1..])
      case None => None
      case Some(e) => Some(e + 1)
  }

  /** The pieces of `s` between line ends. */
  function SplitCrlf(s: string): (pieces: seq<string>)
    ensures |pieces| >= 1
  {
    if s == [] then [[]]
    else if |s| >= 2 && s[0] == '\r' && s[1] == '\n' then [[]] + SplitCrlf(s[2..])
    else
      var rest := SplitCrlf(s[1..]);
      [[s[0]] + rest[0]] + rest[1..]
  }

  function WordLength(s: string): (n: nat)
    ensures n <= |s| && NoWhitespace(s[..n]) && (n < |s| ==> IsWhitespace(s[n]))
  {
    if s == [] || IsWhitespace(s[0]) then 0
    else
      var n := WordLength(s[1..]);
      assert s[..n + 1] == [s[0]] + s[1..][..n];
      n + 1
  }

  /** The words of a line. */
  function Words(s: string): seq<string>
    decreases |s|
  {
    if s == [] then []
    else if IsWhitespace(s[0]) then Words(s[1..])
    else [s[..WordLength(s)]] + Words(s[WordLength(s)..])
  }

  predicate IsWord(s: string) {
    s != [] && NoWhitespace(s)
  }

  function LowerChar(c: char): char {
    if 'A' <= c <= 'Z' then (c as int + 32) as char else c
  }

  function Lower(s: string): (r: string)
    ensures |r| == |s| && forall i :: 0 <= i < |s| ==> r[i] == LowerChar(s[i])
  {
    seq(|s|, i requires 0 <= i < |s| => LowerChar(s[i]))
  }

  function FindHeader(headers: seq<string>, name: string): Option<string> {
    if headers == [] then None
    else
      match IndexOf(headers[0], ':')
      case None => FindHeader(headers[1..], name)
      case Some(i) =>
        if Lower(Trim(headers[0][..i])) == Lower(name) then Some(Trim(headers[0][i + 1..]))
        else FindHeader(headers[1..], name)
  }

  predicate IsProxyHeader(line: string) {
    "proxy-connection:" <= Lower(line) || "proxy-authorization:" <= Lower(line)
  }

  /** The lines that are passed on. */
  function Kept(headers: seq<string>): seq<string> {
    if headers == [] then []
    else if IsProxyHeader(headers[0]) then Kept(headers[1..])
    else [headers[0]] + Kept(headers[1..])
  }

  function NonEmpty(lines: seq<string>): seq<string> {
    if lines == [] then []
    else if lines[0] == [] then NonEmpty(lines[1..])
    else [lines[0]] + NonEmpty(lines[1..])
  }

  predicate IsAbsolute(target: string) {
    "http://" <= target || "https://" <= target
  }

  function HostTarget(headers: seq<string>): Result<TargetAddr, string> {
    match FindHeader(headers, "host")
    case None => Err("missing Host header")
    case Some(host) => Parse(host, Some(80))
  }

  /** Where a request goes, and the request target that is passed on. */
  function Route(urls: Urls, target: string, headers: seq<string>): Result<(TargetAddr, string), string> {
    if IsAbsolute(target) then
      match urls(target)
      case None => Err("invalid absolute URI")
      case Some(uri) =>
        (match New(uri.host, uri.port)
         case Err(e) => Err(e)
         case Ok(t) => Ok((t, uri.origin)))
    else
      match HostTarget(headers)
      case Err(e) => Err(e)
      case Ok(t) => Ok((t, target))
  }

  /** Lines as bytes, each closed by a line end. */
  function LineBytes(lines: seq<string>): seq<byte> {
    if lines == [] then [] else Encode(lines[0]) + CRLF_BYTES + LineBytes(lines[1..])
  }

  /** A header block of these lines, and what follows it. */
  function Message(lines: seq<string>, extra: seq<byte>): seq<byte> {
    LineBytes(lines) + CRLF_BYTES + extra
  }

  /** A header block: its lines, and the bytes after it. */
  datatype Head = Head(lines: seq<string>, extra: seq<byte>)

  function ReadHead(buffer: seq<byte>): (r: Result<Head, string>)
    ensures r.Ok? ==> |r.value.lines| >= 1
  {
    match HeaderEnd(buffer)
    case None => Err("missing end of header")
    case Some(end) =>
      (match Decode(buffer[..end])
       case None => Err("header is not UTF-8")
       case Some(text) => Ok(Head(SplitCrlf(text), buffer[end..])))
  }

  function RequestLine(method_: string, target: string, version: string): string {
    method_ + " " + target + " " + version
  }

  function ParseHead(urls: Urls, head: Head): Result<Parsed, string>
    requires |head.lines| >= 1
  {
    var words := Words(head.lines[0]);
    if |words| < 3 then Err("incomplete request line")
    else if Lower(words[0]) == Lower("CONNECT") then
      match Parse(words[1], None)
      case Err(e) => Err(e)
      case Ok(t) => Ok(Parsed(t, true, []))
    else
      var headers := NonEmpty(head.lines[1..]);
      match Route(urls, words[1], headers)
      case Err(e) => Err(e)
      case Ok((t, origin)) =>
        Ok(Parsed(t, false, Message([RequestLine(words[0], origin, words[2])] + Kept(headers), head.extra)))
  }

  function ParseHttp(urls: Urls, buffer: seq<byte>): Result<Parsed, string> {
    match ReadHead(buffer)
    case Err(e) => Err(e)
    case Ok(head) => ParseHead(urls, head)
  }

  predicate EndsAt(b: seq<byte>, i: nat)
    requires i <= |b|
  {
    StartsCrlf(b[i..]) && StartsCrlf(b[i..][2..])
  }

  /** The header block ends with the first empty line, and is incomplete while there is none. */
  lemma {:induction false} EndIsFirst(b: seq<byte>)
    ensures match HeaderEnd(b)
      case None => forall i :: 0 <= i <= |b| ==> !EndsAt(b, i)
      case Some(e) => EndsAt(b, e - 4) && forall i :: 0 <= i < e - 4 ==> !EndsAt(b, i)
  {
    assert b[0..] == b;
    if b != [] {
      EndIsFirst(b[1..]);
      assert forall i :: 0 < i <= |b| ==> b[i..] == b[1..][i - 1..];
      assert forall i :: 0 < i <= |b| ==> EndsAt(b, i) == EndsAt(b[1..], i - 1);
    }
  }

  /** A line `name: value`, whatever the name's case and the blanks around it. */
  predicate IsHeader(line: string, name: string) {
    IndexOf(line, ':').Some? && Lower(Trim(line[..IndexOf(line, ':').value])) == Lower(name)
  }

  /** The first header of that name is found, with its value trimmed; lines without a colon are passed over. */
  lemma {:induction false} FirstHeader(headers: seq<string>, name: string) returns (i: nat)
    ensures i <= |headers| && forall j :: 0 <= j < i ==> !IsHeader(headers[j], name)
    ensures i == |headers| <==> FindHeader(headers, name) == None
    ensures i < |headers| ==> IsHeader(headers[i], name)
    ensures i < |headers| ==> FindHeader(headers, name) == Some(Trim(headers[i][IndexOf(headers[i], ':').value + 1..]))
  {
    i := 0;
    if headers != [] && !IsHeader(headers[0], name) {
      i := FirstHeader(headers[1..], name);
      assert forall j :: 0 < j <= i && j < |headers| ==> headers[j] == headers[1..][j - 1];
      i := i + 1;
    }
  }

  lemma KeptStep(headers: seq<string>, i: nat)
    requires i < |headers|
    ensures LineBytes(Kept(headers[i..])) ==
      (if IsProxyHeader(headers[i]) then [] else Encode(headers[i]) + CRLF_BYTES) + LineBytes(Kept(headers[i + 1..]))
  {
    var rest := Kept(headers[i + 1..]);
    assert headers[i..][1..] == headers[i + 1..];
    assert ([headers[i]] + rest)[1..] == rest;
  }

  /** Builds the bytes passed on to the origin server. */
  method Forward(line: string, headers: seq<string>, extra: seq<byte>) returns (forward: seq<byte>)
    ensures forward == Message([line] + Kept(headers), extra)
  {
    forward := Encode(line) + CRLF_BYTES;
    ghost var whole := LineBytes([line] + Kept(headers));
    assert ([line] + Kept(headers))[1..] == Kept(headers) && headers[0..] == headers;
    for i := 0 to |headers|
      invariant forward + LineBytes(Kept(headers[i..])) == whole
    {
      KeptStep(headers, i);
      if !IsProxyHeader(headers[i]) {
        forward := forward + (Encode(headers[i]) + CRLF_BYTES);
      }
    }
    assert forward == whole;
    forward := forward + CRLF_BYTES;
    forward := forward + extra;
  }

  /** Reads a request, rewriting it for the origin server when it is not a CONNECT. */
  method ParseHttpRequest(urls: Urls, buffer: seq<byte>) returns (r: Result<Parsed, string>)
    ensures r == ParseHttp(urls, buffer)
    ensures r.Ok? ==> HasLine(buffer) && LeadsTo(urls, buffer, r.value)
  {
    RequestLeads(urls, buffer);
    var head := ReadHead(buffer);
    if head.Err? {
      return Err(head.error);
    }
    var words := Words(head.value.lines[0]);
    if |words| < 3 {
      return Err("incomplete request line");
    }
    if Lower(words[0]) == Lower("CONNECT") {
      var target := Parse(words[1], None);
      return if target.Ok? then Ok(Parsed(target.value, true, [])) else Err(target.error);
    }
    var headers := NonEmpty(head.value.lines[1..]);
    var route := Route(urls, words[1], headers);
    if route.Err? {
      return Err(route.error);
    }
    var line := RequestLine(words[0], route.value.1, words[2]);
    var forward := Forward(line, headers, head.value.extra);
    return Ok(Parsed(route.value.0, false, forward));
  }

  // ---- A written header block is read back ----

  /** What splitting finds after the last line: the empty line, and nothing. */
  const NO_MORE: seq<string> := [[], []]

  predicate LineFree(line: string) {
    forall i {:trigger line[i]} :: 0 < i < |line| ==> !(line[i - 1] == '\r' && line[i] == '\n')
  }

  predicate BytesLineFree(b: seq<byte>) {
    forall i {:trigger b[i]} :: 0 < i < |b| ==> !(b[i - 1] == 13 && b[i] == 10)
  }

  predicate AreLines(lines: seq<string>) {
    forall line :: line in lines ==> line != [] && LineFree(line)
  }

  /** In UTF-8 a carriage return or line feed stands for nothing but itself. */
  lemma {:induction false} EncodeLineFree(s: string)
    requires LineFree(s)
    ensures BytesLineFree(Encode(s))
    ensures s != [] ==>
      Encode(s) != [] && (Encode(s)[0] == 10 ==> s[0] == '\n') && (Encode(s)[0] == 13 ==> s[0] == '\r')
  {
    if s != [] {
      EncodeLineFree(s[1..]);
      var head, tail := EncodeChar(s[0]), Encode(s[1..]);
      assert forall i :: 0 <= i < |head| ==> head[i] >= 0x80 || (|head| == 1 && head[0] == s[0] as int);
      forall i | 0 < i < |head + tail|
        ensures !((head + tail)[i - 1] == 13 && (head + tail)[i] == 10)
      {
        if i > |head| {
          assert tail[i - |head| - 1] == (head + tail)[i - 1] && tail[i - |head|] == (head + tail)[i];
        } else if i == |head| {
          assert s[1] == s[1..][0];
        }
      }
    }
  }

  /** Splitting leaves no line end inside a piece. */
  lemma {:induction false} PiecesAreLineFree(s: string)
    ensures forall piece :: piece in SplitCrlf(s) ==> LineFree(piece)
    ensures SplitCrlf(s)[0] != [] ==> s != [] && SplitCrlf(s)[0][0] == s[0]
  {
    if s == [] {
    } else if |s| >= 2 && s[0] == '\r' && s[1] == '\n' {
      PiecesAreLineFree(s[2..]);
    } else {
      PiecesAreLineFree(s[1..]);
      var rest := SplitCrlf(s[1..]);
      var piece := [s[0]] + rest[0];
      forall i | 0 < i < |piece|
        ensures !(piece[i - 1] == '\r' && piece[i] == '\n')
      {
        if i > 1 {
          assert rest[0] in rest && LineFree(rest[0]);
          assert rest[0][i - 2] == piece[i - 1] && rest[0][i - 1] == piece[i];
        } else {
          assert s[1..][0] == s[1];
        }
      }
    }
  }

  lemma {:induction false} SplitFirstLine(line: string, rest: string)
    requires LineFree(line)
    ensures SplitCrlf(line + CRLF + rest) == [line] + SplitCrlf(rest)
  {
    var s := line + CRLF + rest;
    if line == [] {
      assert s[2..] == rest;
    } else {
      assert s[1..] == line[1..] + CRLF + rest;
      assert |line| > 1 ==> line[0] == line[1 - 1] && s[1] == line[1];
      SplitFirstLine(line[1..], rest);
      assert [line[0]] + line[1..] == line;
    }
  }

  /** An end of header can only follow the line end of a line. */
  lemma {:induction false} EndAfterLine(line: seq<byte>, rest: seq<byte>)
    requires BytesLineFree(line)
    ensures HeaderEnd(line + CRLF_BYTES + rest) ==
      if StartsCrlf(rest) then Some(|line| + 4)
      else match HeaderEnd(rest) case None => None case Some(e) => Some(|line| + 2 + e)
  {
    var b := line + CRLF_BYTES + rest;
    if line == [] {
      assert b[2..] == rest && b[1..] == [10] + rest && ([10] + rest)[1..] == rest;
    } else {
      assert b[1..] == line[1..] + CRLF_BYTES + rest;
      assert |line| > 1 ==> line[0] == line[1 - 1] && b[1] == line[1];
      EndAfterLine(line[1..], rest);
    }
  }

  lemma {:induction false} MessageEnd(lines: seq<string>, extra: seq<byte>)
    requires |lines| >= 1 && AreLines(lines)
    ensures HeaderEnd(Message(lines, extra)) == Some(|LineBytes(lines)| + 2)
  {
    var line := Encode(lines[0]);
    var rest := Message(lines[1..], extra);
    assert lines[0] in lines;
    EncodeLineFree(lines[0]);
    assert Message(lines, extra) == line + CRLF_BYTES + rest;
    EndAfterLine(line, rest);
    if |lines| > 1 {
      MessageEnd(lines[1..], extra);
      NoEmptyLine(lines[1..], extra);
    }
  }

  /** A line with something on it does not begin with a line end. */
  lemma NoEmptyLine(lines: seq<string>, extra: seq<byte>)
    requires |lines| >= 1 && AreLines(lines)
    ensures !StartsCrlf(Message(lines, extra))
  {
    var line := Encode(lines[0]);
    assert lines[0] in lines;
    EncodeLineFree(lines[0]);
    var m := Message(lines, extra);
    assert m == line + (CRLF_BYTES + Message(lines[1..], extra));
    assert |line| > 1 ==> m[1 - 1] == line[1 - 1] && m[1] == line[1];
  }

  function HeadText(lines: seq<string>): string {
    if lines == [] then CRLF else lines[0] + CRLF + HeadText(lines[1..])
  }

  lemma {:induction false} HeadTextEncoded(lines: seq<string>)
    ensures Encode(HeadText(lines)) == LineBytes(lines) + CRLF_BYTES
  {
    assert Encode(CRLF[1..]) == [10] && Encode(CRLF) == CRLF_BYTES;
    if lines != [] {
      HeadTextEncoded(lines[1..]);
      EncodeAppend(lines[0] + CRLF, HeadText(lines[1..]));
      EncodeAppend(lines[0], CRLF);
    }
  }

  lemma {:induction false} HeadTextSplit(lines: seq<string>)
    requires AreLines(lines)
    ensures SplitCrlf(HeadText(lines)) == lines + NO_MORE
  {
    if lines == [] {
      assert CRLF == [] + CRLF + [];
      SplitFirstLine([], []);
    } else {
      assert lines[0] in lines;
      SplitFirstLine(lines[0], HeadText(lines[1..]));
      HeadTextSplit(lines[1..]);
      assert lines + NO_MORE == [lines[0]] + (lines[1..] + NO_MORE);
    }
  }

  /** A header block of non-empty lines is read back line by line, and nothing after it is touched. */
  lemma MessageReadBack(lines: seq<string>, extra: seq<byte>)
    requires |lines| >= 1 && AreLines(lines)
    ensures ReadHead(Message(lines, extra)) == Ok(Head(lines + NO_MORE, extra))
  {
    MessageEnd(lines, extra);
    HeadTextEncoded(lines);
    DecodeEncode(HeadText(lines));
    HeadTextSplit(lines);
    var m, end := Message(lines, extra), |LineBytes(lines)| + 2;
    assert m[..end] == LineBytes(lines) + CRLF_BYTES && m[end..] == extra;
  }

  // ---- The rewritten request is a fixed point ----

  lemma {:induction false} WordStops(word: string, rest: string)
    requires IsWord(word) && (rest != [] ==> IsWhitespace(rest[0]))
    ensures WordLength(word + rest) == |word|
  {
    var s := word + rest;
    assert word[0] in word && s[0] == word[0];
    assert s[1..] == word[1..] + rest;
    if |word| > 1 {
      assert forall c :: c in word[1..] ==> c in word;
      WordStops(word[1..], rest);
    } else {
      assert s[1..] == rest;
    }
  }

  lemma WordsStep(word: string, rest: string)
    requires IsWord(word)
    ensures Words(word + " " + rest) == [word] + Words(rest)
  {
    var s := word + " " + rest;
    var tail := " " + rest;
    assert s == word + tail && tail[1..] == rest;
    assert word[0] in word && s[0] == word[0];
    WordStops(word, tail);
    assert s[..|word|] == word && s[|word|..] == tail;
  }

  lemma RequestLineWords(m: string, t: string, v: string)
    requires IsWord(m) && IsWord(t) && IsWord(v)
    ensures Words(RequestLine(m, t, v)) == [m, t, v]
  {
    var rest := t + " " + v;
    assert RequestLine(m, t, v) == m + " " + rest;
    WordsStep(m, rest);
    WordsStep(t, v);
    assert v[0] in v;
    assert v + [] == v;
    WordStops(v, []);
    assert v[..|v|] == v && v[|v|..] == [];
  }

  lemma {:induction false} WordsAreWords(s: string)
    ensures forall w :: w in Words(s) ==> IsWord(w) && forall c :: c in w ==> c in s
    decreases |s|
  {
    if s == [] {
    } else if IsWhitespace(s[0]) {
      WordsAreWords(s[1..]);
    } else {
      WordsAreWords(s[WordLength(s)..]);
    }
  }

  lemma RequestLineIsLine(m: string, t: string, v: string)
    requires IsWord(m) && IsWord(t) && IsWord(v)
    ensures RequestLine(m, t, v) != [] && LineFree(RequestLine(m, t, v))
  {
    var line := RequestLine(m, t, v);
    assert forall c :: c in m || c in t || c in v ==> c != '\r';
    forall c | c in line
      ensures c != '\r'
    {
    }
    assert '\r' !in line;
  }

  lemma {:induction false} KeptLines(headers: seq<string>)
    ensures forall line :: line in Kept(headers) <==> line in headers && !IsProxyHeader(line)
    ensures Kept(Kept(headers)) == Kept(headers)
    ensures FindHeader(Kept(headers), "host") == FindHeader(headers, "host")
  {
    if headers != [] {
      KeptLines(headers[1..]);
      var rest := Kept(headers[1..]);
      if IsProxyHeader(headers[0]) {
        ProxyHeaderIsNotHost(headers[0]);
      } else {
        assert ([headers[0]] + rest)[1..] == rest;
      }
    }
  }

  lemma ProxyHeaderName(line: string, name: string)
    requires name + ":" <= Lower(line) && name != [] && ':' !in name && |name| > 4
    requires !IsWhitespace(name[0]) && LowerChar(name[0]) == name[0]
    requires !IsWhitespace(name[|name| - 1])
    ensures IndexOf(line, ':') == Some(|name|)
    ensures |Trim(line[..|name|])| == |name|
  {
    var n := |name|;
    var low := name + ":";
    assert forall i :: 0 <= i < n ==> LowerChar(line[i]) == low[i] && low[i] == name[i] && name[i] in name;
    assert LowerChar(line[n]) == low[n];
    var key := line[..n];
    assert ':' !in key;
    IndexIs(line, ':', n);
    assert key[0] == line[0] && key[n - 1] == line[n - 1];
    TrimKeeps(key);
  }

  /** A header that is dropped is never the Host header. */
  lemma ProxyHeaderIsNotHost(line: string)
    requires IsProxyHeader(line)
    ensures IndexOf(line, ':').Some? && |Trim(line[..IndexOf(line, ':').value])| != |"host"|
  {
    if "proxy-connection:" <= Lower(line) {
      assert "proxy-connection" + ":" == "proxy-connection:";
      ProxyHeaderName(line, "proxy-connection");
    } else {
      assert "proxy-authorization" + ":" == "proxy-authorization:";
      ProxyHeaderName(line, "proxy-authorization");
    }
  }

  lemma {:induction false} NonEmptyLines(lines: seq<string>)
    ensures forall line :: line in NonEmpty(lines) <==> line in lines && line != []
  {
    if lines != [] {
      NonEmptyLines(lines[1..]);
    }
  }

  lemma {:induction false} NonEmptyKeeps(lines: seq<string>)
    requires AreLines(lines)
    ensures NonEmpty(lines + NO_MORE) == lines
  {
    if lines == [] {
      assert NO_MORE[1..] == [NO_MORE[1]] && NO_MORE[1..][1..] == [];
      assert lines + NO_MORE == NO_MORE;
    } else {
      assert lines[0] in lines && (lines + NO_MORE)[1..] == lines[1..] + NO_MORE;
      assert forall line :: line in lines[1..] ==> line in lines;
      NonEmptyKeeps(lines[1..]);
    }
  }

  /** How a written request is read back. */
  lemma RewrittenReadBack(m: string, t: string, v: string, headers: seq<string>, extra: seq<byte>)
    requires IsWord(m) && IsWord(t) && IsWord(v) && AreLines(headers)
    ensures var r := ReadHead(Message([RequestLine(m, t, v)] + Kept(headers), extra));
      && r.Ok? && r.value.extra == extra
      && Words(r.value.lines[0]) == [m, t, v] && NonEmpty(r.value.lines[1..]) == Kept(headers)
  {
    RequestLineWords(m, t, v);
    RequestLineIsLine(m, t, v);
    KeptLines(headers);
    var lines := [RequestLine(m, t, v)] + Kept(headers);
    MessageReadBack(lines, extra);
    assert (lines + NO_MORE)[1..] == Kept(headers) + NO_MORE;
    NonEmptyKeeps(Kept(headers));
  }

  /** What a written request parses to. */
  lemma RewrittenParses(urls: Urls, m: string, t: string, v: string, headers: seq<string>, extra: seq<byte>)
    requires IsWord(m) && IsWord(t) && IsWord(v) && Lower(m) != Lower("CONNECT") && AreLines(headers)
    ensures var b := Message([RequestLine(m, t, v)] + Kept(headers), extra);
      ParseHttp(urls, b) == match Route(urls, t, Kept(headers))
        case Err(e) => Err(e)
        case Ok((a, origin)) => Ok(Parsed(a, false, Message([RequestLine(m, origin, v)] + Kept(headers), extra)))
  {
    RewrittenReadBack(m, t, v, headers, extra);
    KeptLines(headers);
  }

  /** The header lines of a request as read. */
  function HeadersOf(buffer: seq<byte>): seq<string>
    requires ReadHead(buffer).Ok?
  {
    NonEmpty(ReadHead(buffer).value.lines[1..])
  }

  /** The request target of a request as read. */
  function TargetOf(buffer: seq<byte>): Option<string>
    requires ReadHead(buffer).Ok?
  {
    var words := Words(ReadHead(buffer).value.lines[0]);
    if |words| < 2 then None else Some(words[1])
  }

  lemma HeadersAreLines(buffer: seq<byte>)
    requires ReadHead(buffer).Ok?
    ensures AreLines(HeadersOf(buffer))
  {
    var end := HeaderEnd(buffer).value;
    PiecesAreLineFree(Decode(buffer[..end]).value);
    NonEmptyLines(ReadHead(buffer).value.lines[1..]);
  }

  /** A rewritten request parses again, with the same bytes, exactly to the target its Host header names. */
  lemma RewriteReparsed(urls: Urls, buffer: seq<byte>)
    requires LawfulUrls(urls)
    requires ParseHttp(urls, buffer).Ok? && !ParseHttp(urls, buffer).value.isConnect
    ensures var f := ParseHttp(urls, buffer).value.forwardBytes;
      ParseHttp(urls, f) == match HostTarget(HeadersOf(buffer))
        case Err(e) => Err(e)
        case Ok(t) => Ok(Parsed(t, false, f))
  {
    var head := ReadHead(buffer).value;
    var words := Words(head.lines[0]);
    WordsAreWords(head.lines[0]);
    assert words[0] in words && words[1] in words && words[2] in words;
    var headers := HeadersOf(buffer);
    HeadersAreLines(buffer);
    var origin := Route(urls, words[1], headers).value.1;
    RewrittenParses(urls, words[0], origin, words[2], headers, head.extra);
    KeptLines(headers);
  }

  /** In origin form the rewrite is a fixed point: the target and every byte stay. */
  lemma OriginFormIsFixedPoint(urls: Urls, buffer: seq<byte>)
    requires LawfulUrls(urls)
    requires ParseHttp(urls, buffer).Ok? && !ParseHttp(urls, buffer).value.isConnect
    requires !IsAbsolute(TargetOf(buffer).value)
    ensures ParseHttp(urls, ParseHttp(urls, buffer).value.forwardBytes) == ParseHttp(urls, buffer)
  {
    RewriteReparsed(urls, buffer);
  }

  /** In absolute form it is one exactly if the Host header names the URL's own target. */
  lemma AbsoluteFormFixedPoint(urls: Urls, buffer: seq<byte>)
    requires LawfulUrls(urls)
    requires ParseHttp(urls, buffer).Ok? && !ParseHttp(urls, buffer).value.isConnect
    requires IsAbsolute(TargetOf(buffer).value)
    ensures ParseHttp(urls, ParseHttp(urls, buffer).value.forwardBytes) == ParseHttp(urls, buffer)
      <==> HostTarget(HeadersOf(buffer)) == Ok(ParseHttp(urls, buffer).value.target)
  {
    RewriteReparsed(urls, buffer);
  }

  // ---- Where a request leads ----

  /** The first Host header stands at i and has this value. */
  ghost predicate NamesHost(headers: seq<string>, i: nat, value: string) {
    && i < |headers| && IsHeader(headers[i], "host") && value == Trim(headers[i][IndexOf(headers[i], ':').value + 1..])
    && forall j :: 0 <= j < i ==> !IsHeader(headers[j], "host")
  }

  /** What a Host value spells, with port 80 where it spells none. */
  ghost predicate Spells(value: string, a: TargetAddr) {
    || (value == a.host && a.port == 80 && a.host != [] && a.host[0] != '[' && ':' !in a.host)
    || (value == a.host + ":" + Decimal(a.port)
        && a.host != [] && !IsWhitespace(a.host[0]) && a.host[0] != '[' && ':' !in a.host)
    || (value == "[" + a.host + "]" && a.port == 80 && Trim(a.host) != [] && ']' !in a.host)
    || (value == "[" + a.host + "]:" + Decimal(a.port) && Trim(a.host) != [] && ']' !in a.host)
  }

  lemma SpelledParses(value: string, a: TargetAddr)
    requires Trim(value) == value && Spells(value, a)
    ensures Parse(value, Some(80)) == Ok(a)
  {
    if value == a.host && a.port == 80 && a.host != [] && a.host[0] != '[' && ':' !in a.host {
      NameAlone(a.host, 80);
    } else if value == a.host + ":" + Decimal(a.port)
      && a.host != [] && !IsWhitespace(a.host[0]) && a.host[0] != '[' && ':' !in a.host {
      NameWithPort(a.host, a.port, Some(80));
    } else if value == "[" + a.host + "]" && a.port == 80 {
      BracketAlone(a.host, 80);
    } else {
      BracketWithPort(a.host, a.port, Some(80));
    }
  }

  lemma {:induction false} TrimEndTrimmed(s: string)
    ensures TrimEnd(TrimEnd(s)) == TrimEnd(s)
    ensures TrimEnd(s) != [] ==> s != [] && TrimEnd(s)[0] == s[0]
  {
    if s != [] && IsWhitespace(s[|s| - 1]) {
      TrimEndTrimmed(s[..|s| - 1]);
    }
  }

  lemma TrimTrimmed(s: string)
    ensures Trim(Trim(s)) == Trim(s)
  {
    var k := TrimStartSplits(s);
    TrimEndTrimmed(TrimStart(s));
    if Trim(s) != [] {
      assert TrimStart(Trim(s)) == Trim(s);
    }
  }

  lemma HostFound(headers: seq<string>, i: nat, value: string)
    requires NamesHost(headers, i, value)
    ensures FindHeader(headers, "host") == Some(value) && Trim(value) == value
  {
    var k := FirstHeader(headers, "host");
    TrimTrimmed(headers[i][IndexOf(headers[i], ':').value + 1..]);
  }

  /** The request line as words, if the header block is complete and has a full one. */
  predicate HasLine(buffer: seq<byte>) {
    ReadHead(buffer).Ok? && |Words(ReadHead(buffer).value.lines[0])| >= 3
  }

  function LineWords(buffer: seq<byte>): seq<string>
    requires HasLine(buffer)
  {
    Words(ReadHead(buffer).value.lines[0])
  }

  /** The first Host header spells this target. */
  ghost predicate HostSays(headers: seq<string>, a: TargetAddr) {
    exists i, value :: NamesHost(headers, i, value) && Spells(value, a)
  }

  /** Where a request with this request target and these headers must go: in absolute form to the host and port
      of the URL, in origin form to what the first Host header spells. */
  ghost predicate GoesTo(urls: Urls, target: string, headers: seq<string>, a: TargetAddr) {
    if IsAbsolute(target) then urls(target).Some? && a == TargetAddr(urls(target).value.host, urls(target).value.port)
    else forall b :: HostSays(headers, b) ==> a == b
  }

  /** Where a request with this header block must lead; a method that spells connect, in any case, asks for a tunnel. */
  ghost predicate LeadsTo(urls: Urls, buffer: seq<byte>, p: Parsed)
    requires HasLine(buffer)
  {
    && (p.isConnect <==> Lower(LineWords(buffer)[0]) == "connect")
    && (!p.isConnect ==> GoesTo(urls, LineWords(buffer)[1], HeadersOf(buffer), p.target))
  }

  lemma HostSaysTarget(headers: seq<string>, a: TargetAddr)
    requires HostSays(headers, a)
    ensures HostTarget(headers) == Ok(a)
  {
    var i, value :| NamesHost(headers, i, value) && Spells(value, a);
    HostFound(headers, i, value);
    SpelledParses(value, a);
  }

  lemma RouteGoes(urls: Urls, target: string, headers: seq<string>)
    ensures Route(urls, target, headers).Ok? ==> GoesTo(urls, target, headers, Route(urls, target, headers).value.0)
  {
    forall a | HostSays(headers, a)
      ensures HostTarget(headers) == Ok(a)
    {
      HostSaysTarget(headers, a);
    }
  }

  lemma ConnectLower()
    ensures Lower("CONNECT") == "connect"
  {
  }

  lemma HeadLeads(urls: Urls, head: Head)
    requires |head.lines| >= 1 && ParseHead(urls, head).Ok?
    ensures var p := ParseHead(urls, head).value; var words := Words(head.lines[0]);
      && |words| >= 3 && (p.isConnect <==> Lower(words[0]) == "connect")
      && (!p.isConnect ==> GoesTo(urls, words[1], NonEmpty(head.lines[1..]), p.target))
  {
    ConnectLower();
    RouteGoes(urls, Words(head.lines[0])[1], NonEmpty(head.lines[1..]));
  }

  lemma RequestLeads(urls: Urls, buffer: seq<byte>)
    ensures ParseHttp(urls, buffer).Ok? ==> HasLine(buffer) && LeadsTo(urls, buffer, ParseHttp(urls, buffer).value)
  {
    if ParseHttp(urls, buffer).Ok? {
      HeadLeads(urls, ReadHead(buffer).value);
    }
  }

  /** A request in absolute form is accepted exactly if the URL is well-formed and its host not blank. */
  lemma AbsoluteAccepted(urls: Urls, buffer: seq<byte>)
    requires HasLine(buffer) && Lower(LineWords(buffer)[0]) != "connect" && IsAbsolute(LineWords(buffer)[1])
    ensures var uri := urls(LineWords(buffer)[1]);
      ParseHttp(urls, buffer).Ok? <==> uri.Some? && Trim(uri.value.host) != []
  {
    ConnectLower();
  }

  /** A request in origin form is accepted if its first Host header spells a target, and not without one. */
  lemma OriginAccepted(urls: Urls, buffer: seq<byte>)
    requires HasLine(buffer) && Lower(LineWords(buffer)[0]) != "connect" && !IsAbsolute(LineWords(buffer)[1])
    ensures forall a :: HostSays(HeadersOf(buffer), a) ==> ParseHttp(urls, buffer).Ok?
    ensures (forall line :: line in HeadersOf(buffer) ==> !IsHeader(line, "host")) ==> ParseHttp(urls, buffer).Err?
  {
    ConnectLower();
    var k := FirstHeader(HeadersOf(buffer), "host");
    forall a | HostSays(HeadersOf(buffer), a)
      ensures ParseHttp(urls, buffer).Ok?
    {
      HostSaysTarget(HeadersOf(buffer), a);
    }
  }

  /** Both web schemes make a request target absolute; a path does not. */
  lemma AbsoluteTargets(rest: string)
    ensures IsAbsolute("http://" + rest) && IsAbsolute("https://" + rest) && !IsAbsolute("/" + rest)
  {
    assert ("/" + rest)[0] == '/';
  }

  /** Exactly the lines whose name, in any case, is that of a proxy header are held back. */
  lemma ProxyHeadersExactly(line: string)
    ensures IsProxyHeader(line) <==>
      IndexOf(line, ':').Some?
      && Lower(line[..IndexOf(line, ':').value]) in {"proxy-connection", "proxy-authorization"}
  {
    var low := Lower(line);
    if IndexOf(line, ':').Some? {
      var i := IndexOf(line, ':').value;
      assert low[..i] == Lower(line[..i]) && low[i] == ':';
      if Lower(line[..i]) == "proxy-connection" {
        assert low[..17] == "proxy-connection:";
      } else if Lower(line[..i]) == "proxy-authorization" {
        assert low[..20] == "proxy-authorization:";
      }
    }
    if "proxy-connection:" <= low {
      assert "proxy-connection" + ":" == "proxy-connection:";
      ProxyHeaderName(line, "proxy-connection");
      assert low[..16] == "proxy-connection" && Lower(line[..16]) == low[..16];
    } else if "proxy-authorization:" <= low {
      assert "proxy-authorization" + ":" == "proxy-authorization:";
      ProxyHeaderName(line, "proxy-authorization");
      assert low[..19] == "proxy-authorization" && Lower(line[..19]) == low[..19];
    }
  }

  /** The rewrite drops the proxy headers and nothing else: the other header lines stay in order, and what
      follows the header block stays as it is. */
  lemma RewriteConserves(urls: Urls, buffer: seq<byte>)
    requires LawfulUrls(urls)
    requires ParseHttp(urls, buffer).Ok? && !ParseHttp(urls, buffer).value.isConnect
    ensures var read := ReadHead(ParseHttp(urls, buffer).value.forwardBytes);
      && read.Ok?
      && read.value.extra == ReadHead(buffer).value.extra
      && NonEmpty(read.value.lines[1..]) == Kept(HeadersOf(buffer))
      && var words := Words(ReadHead(buffer).value.lines[0]);
        Words(read.value.lines[0]) ==
          [words[0], if IsAbsolute(words[1]) then urls(words[1]).value.origin else words[1], words[2]]
  {
    var head := ReadHead(buffer).value;
    var words := Words(head.lines[0]);
    WordsAreWords(head.lines[0]);
    assert words[0] in words && words[1] in words && words[2] in words;
    var headers := HeadersOf(buffer);
    HeadersAreLines(buffer);
    RewrittenReadBack(words[0], Route(urls, words[1], headers).value.1, words[2], headers, head.extra);
  }

  /** The rewritten request begins with method, request target and version, single spaces between them. */
  lemma RewrittenLine(urls: Urls, buffer: seq<byte>)
    requires ParseHttp(urls, buffer).Ok? && !ParseHttp(urls, buffer).value.isConnect
    ensures HasLine(buffer)
    ensures var words := LineWords(buffer);
      var target := if IsAbsolute(words[1]) then urls(words[1]).value.origin else words[1];
      Encode(words[0] + " " + target + " " + words[2]) + [13, 10] <= ParseHttp(urls, buffer).value.forwardBytes
  {
    var words := LineWords(buffer);
    var line := RequestLine(words[0], Route(urls, words[1], HeadersOf(buffer)).value.1, words[2]);
    MessageBegins(line, Kept(HeadersOf(buffer)), ReadHead(buffer).value.extra);
  }

  lemma MessageBegins(line: string, lines: seq<string>, extra: seq<byte>)
    ensures Encode(line) + [13, 10] <= Message([line] + lines, extra)
  {
    assert ([line] + lines)[1..] == lines;
    assert Message([line] + lines, extra) == Encode(line) + [13, 10] + (LineBytes(lines) + CRLF_BYTES + extra);
  }

  // ---- How the stream is cut into reads does not matter ----

  lemma {:induction false} EndAppend(b: seq<byte>, more: seq<byte>)
    requires HeaderEnd(b).Some?
    ensures HeaderEnd(b + more) == HeaderEnd(b)
  {
    assert (b + more)[1..] == b[1..] + more;
    if StartsCrlf(b) && StartsCrlf(b[2..]) {
      assert (b + more)[2..] == b[2..] + more;
    } else {
      assert !(StartsCrlf(b + more) && StartsCrlf((b + more)[2..])) by {
        assert (b + more)[..4] == b[..4];
        assert (b + more)[2..][..2] == b[2..4];
      }
      EndAppend(b[1..], more);
    }
  }

  lemma HeadAppend(b: seq<byte>, more: seq<byte>)
    requires HeaderEnd(b).Some?
    ensures ReadHead(b + more) == match ReadHead(b)
      case Err(e) => Err(e)
      case Ok(head) => Ok(Head(head.lines, head.extra + more))
  {
    EndAppend(b, more);
    var end := HeaderEnd(b).value;
    assert (b + more)[..end] == b[..end] && (b + more)[end..] == b[end..] + more;
  }

  lemma MessageAppend(lines: seq<string>, extra: seq<byte>, more: seq<byte>)
    ensures Message(lines, extra + more) == Message(lines, extra) + more
  {
  }

  lemma LateInHead(urls: Urls, head: Head, more: seq<byte>)
    requires |head.lines| >= 1
    ensures ParseHead(urls, Head(head.lines, head.extra + more)) == match ParseHead(urls, head)
      case Err(e) => Err(e)
      case Ok(p) => Ok(if p.isConnect then p else Parsed(p.target, false, p.forwardBytes + more))
  {
    var words := Words(head.lines[0]);
    var headers := NonEmpty(head.lines[1..]);
    if |words| >= 3 && Route(urls, words[1], headers).Ok? {
      var line := RequestLine(words[0], Route(urls, words[1], headers).value.1, words[2]);
      MessageAppend([line] + Kept(headers), head.extra, more);
    }
  }

  /** Bytes that arrive after the header block change neither the target nor what is written for it: a
      rewritten request simply grows by them. After a CONNECT header they are dropped. */
  lemma LateBytes(urls: Urls, b: seq<byte>, more: seq<byte>)
    requires HeaderEnd(b).Some?
    ensures ParseHttp(urls, b + more) == match ParseHttp(urls, b)
      case Err(e) => Err(e)
      case Ok(p) => Ok(if p.isConnect then p else Parsed(p.target, false, p.forwardBytes + more))
  {
    HeadAppend(b, more);
    if ReadHead(b).Ok? {
      LateInHead(urls, ReadHead(b).value, more);
    }
  }

  datatype ReadError = Closed | TooLarge

  /** Reads until a header block is complete. An empty chunk is the end of the stream. */
  method ReadHttpRequest(chunks: seq<seq<byte>>) returns (r: Result<seq<byte>, ReadError>, used: nat)
    ensures used <= |chunks|
    ensures forall j :: 0 <= j < used ==>
      HeaderEnd(Flatten(chunks[..j])).None? && |Flatten(chunks[..j])| <= 64 * 1024
    ensures match r
      case Ok(buffer) => buffer == Flatten(chunks[..used]) && HeaderEnd(buffer).Some?
      case Err(Closed) => used == |chunks| || chunks[used] == []
      case Err(TooLarge) => |Flatten(chunks[..used])| > 64 * 1024 && HeaderEnd(Flatten(chunks[..used])).None?
  {
    var buffer := [];
    used := 0;
    while used < |chunks| && chunks[used] != []
      invariant used <= |chunks| && buffer == Flatten(chunks[..used])
      invariant forall j :: 0 <= j <= used ==>
        HeaderEnd(Flatten(chunks[..j])).None? && |Flatten(chunks[..j])| <= HEADER_LIMIT
    {
      FlattenAppend(chunks[..used], chunks[used]);
      assert chunks[..used] + [chunks[used]] == chunks[..used + 1];
      buffer := buffer + chunks[used];
      used := used + 1;
      if HeaderEnd(buffer).Some? {
        return Ok(buffer), used;
      }
      if |buffer| > HEADER_LIMIT {
        return Err(TooLarge), used;
      }
    }
    return Err(Closed), used;
  }

  // ---- The CONNECT request of the outbound side is read by the inbound side ----

  type Credentials = ProxyNodes.Credentials

  /** Encoded text has no blanks. */
  ghost predicate LawfulBase64(encode: string -> string) {
    forall s :: NoWhitespace(encode(s))
  }

  function AuthLine(encode: string -> string, auth: Option<Credentials>): seq<string> {
    match auth
    case None => []
    case Some(c) =>
      ["Proxy-Authorization: Basic " + encode(c.username + ":" + if c.password.Some? then c.password.value else "")]
  }

  function ConnectLines(v6: Ipv6Text, t: TargetAddr): seq<string> {
    ["CONNECT " + Show(v6, t) + " HTTP/1.1", "Host: " + Show(v6, t), "Proxy-Connection: Keep-Alive"]
  }

  /** The request as text, built up as it is sent. */
  method ConnectRequest(v6: Ipv6Text, encode: string -> string, auth: Option<Credentials>, t: TargetAddr)
      returns (request: string)
    ensures request == HeadText(ConnectLines(v6, t) + AuthLine(encode, auth))
  {
    request := "CONNECT " + Show(v6, t) + " HTTP/1.1" + CRLF;
    request := request + ("Host: " + Show(v6, t) + CRLF);
    request := request + ("Proxy-Connection: Keep-Alive" + CRLF);
    ghost var fixed, more := ConnectLines(v6, t), AuthLine(encode, auth);
    ThreeLines(fixed);
    TextOfLines(fixed, more);
    assert request == LineText(fixed);
    if auth.Some? {
      var password := if auth.value.password.Some? then auth.value.password.value else "";
      var line := "Proxy-Authorization: Basic " + encode(auth.value.username + ":" + password);
      request := request + (line + CRLF);
      assert more == [line];
      OneLine(line);
    }
    request := request + CRLF;
  }

  lemma OneLine(line: string)
    ensures HeadText([line]) == line + CRLF + CRLF
  {
    assert [line][1..] == [];
  }

  function LineText(lines: seq<string>): string {
    if lines == [] then [] else lines[0] + CRLF + LineText(lines[1..])
  }

  lemma {:induction false} TextOfLines(a: seq<string>, b: seq<string>)
    ensures HeadText(a + b) == LineText(a) + HeadText(b)
  {
    if a == [] {
      assert a + b == b;
    } else {
      assert (a + b)[1..] == a[1..] + b;
      TextOfLines(a[1..], b);
    }
  }

  lemma ThreeLines(lines: seq<string>)
    requires |lines| == 3
    ensures LineText(lines) == lines[0] + CRLF + lines[1] + CRLF + lines[2] + CRLF
  {
    assert LineText(lines[1..][1..][1..]) == [];
    assert LineText(lines[1..][1..]) == lines[2] + CRLF;
    assert LineText(lines[1..]) == lines[1] + CRLF + (lines[2] + CRLF);
  }

  lemma {:induction false} TrimWithin(s: string)
    ensures forall c :: c in TrimStart(s) ==> c in s
    ensures forall c :: c in TrimEnd(s) ==> c in s
  {
    if s != [] {
      TrimWithin(s[1..]);
      TrimWithin(s[..|s| - 1]);
    }
  }

  /** A parsed host is spelled with characters of the authority. */
  lemma HostWithin(authority: string, port: Option<u16>)
    requires Parse(authority, port).Ok?
    ensures forall c :: c in Parse(authority, port).value.host ==> c in authority
  {
    var a := Trim(authority);
    TrimWithin(authority);
    TrimWithin(TrimStart(authority));
    assert forall c :: c in a[1..] ==> c in a;
  }

  lemma ShownIsWord(v6: Ipv6Text, t: TargetAddr)
    requires NoWhitespace(t.host)
    ensures IsWord(Show(v6, t))
  {
  }

  lemma AroundWord(before: string, word: string, after: string)
    requires NoWhitespace(word) && '\r' !in before && '\r' !in after
    ensures LineFree(before + word + after)
  {
    assert '\r' !in before + word + after;
  }

  lemma AuthLineIsLine(encode: string -> string, auth: Option<Credentials>)
    requires LawfulBase64(encode)
    ensures AreLines(AuthLine(encode, auth))
  {
    if auth.Some? {
      var c := auth.value;
      var token := encode(c.username + ":" + if c.password.Some? then c.password.value else "");
      AroundWord("Proxy-Authorization: Basic ", token, "");
      assert "Proxy-Authorization: Basic " + token + "" == "Proxy-Authorization: Basic " + token;
    }
  }

  lemma FixedLinesAreLines(v6: Ipv6Text, t: TargetAddr)
    requires NoWhitespace(t.host)
    ensures AreLines(ConnectLines(v6, t))
  {
    ShownIsWord(v6, t);
    var shown := Show(v6, t);
    AroundWord("CONNECT ", shown, " HTTP/1.1");
    AroundWord("Host: ", shown, "");
    assert "Host: " + shown + "" == "Host: " + shown;
    assert '\r' !in "Proxy-Connection: Keep-Alive";
  }

  lemma ConnectLinesAreLines(v6: Ipv6Text, encode: string -> string, auth: Option<Credentials>, t: TargetAddr)
    requires NoWhitespace(t.host) && LawfulBase64(encode)
    ensures AreLines(ConnectLines(v6, t) + AuthLine(encode, auth))
  {
    FixedLinesAreLines(v6, t);
    AuthLineIsLine(encode, auth);
  }

  /** A CONNECT request for a host without blanks ends where its header block ends. */
  lemma ConnectHead(v6: Ipv6Text, encode: string -> string, auth: Option<Credentials>, t: TargetAddr, extra: seq<byte>)
    requires NoWhitespace(t.host) && LawfulBase64(encode)
    ensures var lines := ConnectLines(v6, t) + AuthLine(encode, auth);
      var sent := Encode(HeadText(lines));
      HeaderEnd(sent + extra) == Some(|sent|) && ReadHead(sent + extra) == Ok(Head(lines + NO_MORE, extra))
  {
    var lines := ConnectLines(v6, t) + AuthLine(encode, auth);
    ConnectLinesAreLines(v6, encode, auth, t);
    HeadTextEncoded(lines);
    MessageReadBack(lines, extra);
    MessageEnd(lines, extra);
  }

  /** The inbound side goes by the request line alone. */
  lemma ConnectHeadParses(urls: Urls, shown: string, lines: seq<string>, extra: seq<byte>)
    requires IsWord(shown) && |lines| >= 1 && lines[0] == "CONNECT " + shown + " HTTP/1.1"
    ensures ParseHead(urls, Head(lines, extra)) == match Parse(shown, None)
      case Err(e) => Err(e)
      case Ok(t) => Ok(Parsed(t, true, []))
  {
    RequestLineWords("CONNECT", shown, "HTTP/1.1");
    assert lines[0] == RequestLine("CONNECT", shown, "HTTP/1.1");
  }

  /** The request written for a target is read back as a CONNECT to that target exactly if the target's text
      parses back and its host has no blanks; whatever is sent after it makes no difference. */
  lemma ConnectRoundTrip(urls: Urls, v6: Ipv6Text, encode: string -> string, auth: Option<Credentials>, t: TargetAddr,
      extra: seq<byte>)
    requires Lawful(v6) && LawfulBase64(encode)
    ensures var sent := Encode(HeadText(ConnectLines(v6, t) + AuthLine(encode, auth)));
      ParseHttp(urls, sent + extra) == Ok(Parsed(t, true, [])) <==> ShowsBack(v6, t.host) && NoWhitespace(t.host)
  {
    var lines := ConnectLines(v6, t) + AuthLine(encode, auth);
    var received := Encode(HeadText(lines)) + extra;
    if NoWhitespace(t.host) {
      ConnectHead(v6, encode, auth, t, extra);
      ShownIsWord(v6, t);
      ConnectHeadParses(urls, Show(v6, t), lines + NO_MORE, extra);
      ShownTargetParses(v6, t);
    } else {
      OnlyWordsAreTargets(urls, received);
    }
  }

  /** A CONNECT target has no blanks. */
  lemma OnlyWordsAreTargets(urls: Urls, buffer: seq<byte>)
    ensures var r := ParseHttp(urls, buffer); r.Ok? && r.value.isConnect ==> NoWhitespace(r.value.target.host)
  {
    if ParseHttp(urls, buffer).Err? || !ParseHttp(urls, buffer).value.isConnect {
      return;
    }
    var line := ReadHead(buffer).value.lines[0];
    var words := Words(line);
    WordsAreWords(line);
    assert words[1] in words;
    HostWithin(words[1], None);
  }
}
