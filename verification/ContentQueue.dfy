/** Loading proxies from a source: base64 unwrapping, Clash documents, proxy lines, and subscriptions
    expanded breadth-first to a bounded depth (src/parser.rs). */
module ContentQueue {
  import opened Prelude
  import opened Text

  const MAX_SUBSCRIPTION_DEPTH: nat := 4
  const BASE64_MIN_LEN: nat := 8

  datatype ProxySet = ProxySet(native: seq<string>, complex: seq<string>) {
    function Extend(other: ProxySet): ProxySet {
      ProxySet(native + other.native, complex + other.complex)
    }
  }

  const NO_PROXIES := ProxySet([], [])

  /** A source line after comments are stripped: a proxy link, a complex proxy link, or something else. */
  datatype Line = NativeLine(proxy: string) | ComplexLine(proxy: string) | OtherLine(text: string, isUrl: bool)

  /** Where an item stands in the expansion: the way to it from the root. */
  type Position = seq<nat>

  /** The libraries and the network: two base64 alphabets (decoding to text), the Clash document parser,
      the line classifier, and the downloads. What a download returns depends on where it is asked for, and
      none is asked for twice at one place, so nothing ties one download to another, of the same URL or not. */
  datatype Sources = Sources(
    standardBase64: string -> Option<string>,
    urlSafeBase64: string -> Option<string>,
    clash: (string, string) -> Result<Option<(ProxySet, seq<string>)>, string>,
    lines: string -> seq<Line>,
    fetch: (Position, string) -> Option<string>)

  /** Base64 decodes to at most three quarters of its length (RFC 4648 section 4). */
  ghost predicate Base64Law(src: Sources) {
    && (forall s :: src.standardBase64(s).Some? ==> 4 * |src.standardBase64(s).value| <= 3 * |s|)
    && (forall s :: src.urlSafeBase64(s).Some? ==> 4 * |src.urlSafeBase64(s).value| <= 3 * |s|)
  }

  function StripWhitespace(s: string): (r: string)
    ensures |r| <= |s|
  {
    if s == [] then [] else (if IsWhitespace(s[0]) then [] else [s[0]]) + StripWhitespace(s[1..])
  }

  predicate LooksLikeBase64(s: string) {
    forall c :: c in s ==> 'a' <= c <= 'z' || 'A' <= c <= 'Z' || '0' <= c <= '9' || c in "+/-_="
  }

  predicate Contains(s: string, part: string) {
    |part| <= |s| && (s[..|part|] == part || (s != [] && Contains(s[1..], part)))
  }

  predicate LooksLikeSource(text: string) {
    Contains(text, "://") || Contains(text, "proxies:")
  }

  function DecodeBase64(src: Sources, content: string): Option<string> {
    var normalized := StripWhitespace(content);
    if |normalized| < BASE64_MIN_LEN || !LooksLikeBase64(normalized) then None else
    var standard := src.standardBase64(normalized);
    var urlSafe := src.urlSafeBase64(normalized);
    if standard.Some? && LooksLikeSource(standard.value) then standard
    else if urlSafe.Some? && LooksLikeSource(urlSafe.value) then urlSafe
    else None
  }

  /** Unwrapping base64 strictly shortens the content. */
  lemma DecodingShortens(src: Sources, content: string)
    requires Base64Law(src) && DecodeBase64(src, content).Some?
    ensures |DecodeBase64(src, content).value| < |content|
  {
    var normalized := StripWhitespace(content);
    assert |normalized| >= BASE64_MIN_LEN;
  }

  datatype LocalParse = LocalParse(proxies: ProxySet, urls: seq<string>, decoded: seq<string>)

  function ParseLines(lines: seq<Line>, allowSubscriptions: bool): LocalParse {
    if lines == [] then LocalParse(NO_PROXIES, [], []) else
    var before := ParseLines(lines[..|lines| - 1], allowSubscriptions);
    match lines[|lines| - 1]
    case NativeLine(p) => before.(proxies := before.proxies.(native := before.proxies.native + [p]))
    case ComplexLine(p) => before.(proxies := before.proxies.(complex := before.proxies.complex + [p]))
    case OtherLine(text, isUrl) => if allowSubscriptions && isUrl then before.(urls := before.urls + [text]) else before
  }

  function ParseLocal(src: Sources, content: string, source: string, allowSubscriptions: bool)
    : Result<LocalParse, string>
  {
    var decoded := DecodeBase64(src, content);
    if decoded.Some? then Ok(LocalParse(NO_PROXIES, [], [decoded.value])) else
    match src.clash(content, source)
    case Err(e) => Err(e)
    case Ok(Some(document)) => Ok(LocalParse(document.0, document.1, []))
    case Ok(None) => Ok(ParseLines(src.lines(content), allowSubscriptions))
  }

  method ParseLocalContent(src: Sources, content: string, source: string, allowSubscriptions: bool)
      returns (r: Result<LocalParse, string>)
    ensures r == ParseLocal(src, content, source, allowSubscriptions)
  {
    var decoded := DecodeBase64(src, content);
    if decoded.Some? {
      return Ok(LocalParse(NO_PROXIES, [], [decoded.value]));
    }
    match src.clash(content, source) {
      case Err(e) => return Err(e);
      case Ok(Some(document)) => return Ok(LocalParse(document.0, document.1, []));
      case Ok(None) =>
    }
    var lines := src.lines(content);
    var native, complex, urls: seq<string> := [], [], [];
    for i := 0 to |lines|
      invariant LocalParse(ProxySet(native, complex), urls, []) == ParseLines(lines[..i], allowSubscriptions)
    {
      assert lines[..i + 1][..i] == lines[..i];
      match lines[i] {
        case NativeLine(p) => native := native + [p];
        case ComplexLine(p) => complex := complex + [p];
        case OtherLine(text, isUrl) =>
          if allowSubscriptions && isUrl {
            urls := urls + [text];
          }
      }
    }
    assert lines[..|lines|] == lines;
    r := Ok(LocalParse(ProxySet(native, complex), urls, []));
  }

  lemma {:induction false} LinesHaveNoUrls(lines: seq<Line>)
    ensures ParseLines(lines, false).urls == []
    ensures ParseLines(lines, false).decoded == []
  {
    if lines != [] {
      LinesHaveNoUrls(lines[..|lines| - 1]);
    }
  }

  lemma {:induction false} LinesDecodeNothing(lines: seq<Line>, allowSubscriptions: bool)
    ensures ParseLines(lines, allowSubscriptions).decoded == []
  {
    if lines != [] {
      LinesDecodeNothing(lines[..|lines| - 1], allowSubscriptions);
    }
  }

  /** Where subscriptions are not allowed, only a Clash document's providers can name further URLs. */
  lemma DownloadedLinesAreNotExpanded(src: Sources, content: string, source: string)
    ensures var r := ParseLocal(src, content, source, false);
      r.Ok? && r.value.urls != [] ==>
        src.clash(content, source).Ok? && src.clash(content, source).value.Some?
        && src.clash(content, source).value.value.1 == r.value.urls
  {
    LinesHaveNoUrls(src.lines(content));
  }

  // ----- the queue -----

  datatype Item = Item(content: string, source: string, depth: nat, allowSubscriptions: bool, position: Position)

  /** The places of the texts unwrapped from an item, and of its downloads. */
  function UnwrappedAt(item: Item, i: nat): Position {
    item.position + [2 * i]
  }

  function DownloadAt(item: Item, i: nat): Position {
    item.position + [2 * i + 1]
  }

  function DecodedItems(item: Item, decoded: seq<string>): (items: seq<Item>)
    ensures |items| == |decoded|
  {
    seq(|decoded|, i requires 0 <= i < |decoded| =>
      Item(decoded[i], item.source + " <base64>", item.depth, false, UnwrappedAt(item, i)))
  }

  function FetchedItems(src: Sources, item: Item, urls: seq<string>): seq<Item> {
    if urls == [] then [] else
    var last := |urls| - 1;
    var body := src.fetch(DownloadAt(item, last), urls[last]);
    FetchedItems(src, item, urls[..last])
    + if body.Some? then [Item(body.value, urls[last], item.depth + 1, false, DownloadAt(item, last))] else []
  }

  /** What replaces an item in the queue: its unwrapped text, and below the depth limit its subscriptions. */
  function Children(src: Sources, item: Item, parsed: LocalParse): seq<Item> {
    DecodedItems(item, parsed.decoded)
    + if item.depth >= MAX_SUBSCRIPTION_DEPTH then [] else FetchedItems(src, item, parsed.urls)
  }

  function Left(depth: nat): nat {
    if depth >= MAX_SUBSCRIPTION_DEPTH then 0 else MAX_SUBSCRIPTION_DEPTH - depth
  }

  /** Deeper in, or as deep with shorter content. */
  predicate Below(item: Item, left: nat, size: nat) {
    Left(item.depth) < left || (Left(item.depth) == left && |item.content| < size)
  }

  /** All proxies an item leads to, or failure if any document on the way is broken. */
  datatype Outcome = Failed | Loaded(native: multiset<string>, complex: multiset<string>)

  const NOTHING_LOADED := Loaded(multiset{}, multiset{})

  function Join(a: Outcome, b: Outcome): Outcome {
    if a.Failed? || b.Failed? then Failed else Loaded(a.native + b.native, a.complex + b.complex)
  }

  function Bag(proxies: ProxySet): Outcome {
    Loaded(multiset(proxies.native), multiset(proxies.complex))
  }

  lemma {:induction false} FetchedDeeper(src: Sources, item: Item, urls: seq<string>)
    ensures forall c :: c in FetchedItems(src, item, urls) ==> c.depth == item.depth + 1
  {
    if urls != [] {
      FetchedDeeper(src, item, urls[..|urls| - 1]);
    }
  }

  /** Every child lies below its parent, and at most one of them is as deep as it. */
  lemma ChildrenBelow(src: Sources, item: Item)
    requires Base64Law(src)
    ensures var r := ParseLocal(src, item.content, item.source, item.allowSubscriptions);
      r.Ok? ==>
        && (forall c :: c in Children(src, item, r.value) ==> Below(c, Left(item.depth), |item.content|))
        && |r.value.decoded| <= 1 && (forall d :: d in r.value.decoded ==> |d| < |item.content|)
  {
    LinesDecodeNothing(src.lines(item.content), item.allowSubscriptions);
    var r := ParseLocal(src, item.content, item.source, item.allowSubscriptions);
    if DecodeBase64(src, item.content).Some? {
      DecodingShortens(src, item.content);
    }
    if r.Ok? {
      FetchedDeeper(src, item, r.value.urls);
    }
  }

  /** The recursive reading of a source: its own proxies together with those of everything it leads to. */
  ghost function Expand(src: Sources, item: Item): Outcome
    requires Base64Law(src)
    decreases Left(item.depth), |item.content|
  {
    match ParseLocal(src, item.content, item.source, item.allowSubscriptions)
    case Err(_) => Failed
    case Ok(parsed) =>
      ChildrenBelow(src, item);
      Join(Bag(parsed.proxies), ExpandBelow(src, Children(src, item, parsed), Left(item.depth), |item.content|))
  }

  ghost function ExpandBelow(src: Sources, items: seq<Item>, left: nat, size: nat): Outcome
    requires Base64Law(src)
    requires forall c :: c in items ==> Below(c, left, size)
    decreases left, size, |items|
  {
    if items == [] then NOTHING_LOADED else
    assert Below(items[0], left, size) by { assert items[0] in items; }
    Join(Expand(src, items[0]), ExpandBelow(src, items[1..], left, size))
  }

  ghost function Outcomes(src: Sources, items: seq<Item>): (outcomes: seq<Outcome>)
    requires Base64Law(src)
    ensures |outcomes| == |items|
    ensures forall i :: 0 <= i < |items| ==> outcomes[i] == Expand(src, items[i])
  {
    seq(|items|, i requires 0 <= i < |items| => Expand(src, items[i]))
  }

  function JoinAll(outcomes: seq<Outcome>): Outcome {
    if outcomes == [] then NOTHING_LOADED else Join(outcomes[0], JoinAll(outcomes[1..]))
  }

  ghost function ExpandAll(src: Sources, items: seq<Item>): Outcome
    requires Base64Law(src)
  {
    JoinAll(Outcomes(src, items))
  }

  lemma {:induction false} BelowIsAll(src: Sources, items: seq<Item>, left: nat, size: nat)
    requires Base64Law(src)
    requires forall c :: c in items ==> Below(c, left, size)
    ensures ExpandBelow(src, items, left, size) == ExpandAll(src, items)
    decreases |items|
  {
    if items != [] {
      BelowIsAll(src, items[1..], left, size);
      assert Outcomes(src, items)[1..] == Outcomes(src, items[1..]);
    }
  }

  lemma {:induction false} JoinAllAppend(a: seq<Outcome>, b: seq<Outcome>)
    ensures JoinAll(a + b) == Join(JoinAll(a), JoinAll(b))
    decreases |a|
  {
    if a == [] {
      assert a + b == b;
    } else {
      assert (a + b)[1..] == a[1..] + b;
      JoinAllAppend(a[1..], b);
    }
  }

  lemma ExpandAppend(src: Sources, a: seq<Item>, b: seq<Item>)
    requires Base64Law(src)
    ensures ExpandAll(src, a + b) == Join(ExpandAll(src, a), ExpandAll(src, b))
  {
    assert Outcomes(src, a + b) == Outcomes(src, a) + Outcomes(src, b);
    JoinAllAppend(Outcomes(src, a), Outcomes(src, b));
  }

  lemma ExpandFirst(src: Sources, items: seq<Item>)
    requires Base64Law(src) && items != []
    ensures ExpandAll(src, items) == Join(Expand(src, items[0]), ExpandAll(src, items[1..]))
  {
    assert Outcomes(src, items)[1..] == Outcomes(src, items[1..]);
  }

  lemma JoinRegroups(before: Outcome, own: Outcome, below: Outcome, rest: Outcome)
    ensures Join(Join(before, own), Join(rest, below)) == Join(before, Join(Join(own, below), rest))
  {
  }

  lemma BagExtend(a: ProxySet, b: ProxySet)
    ensures Bag(a.Extend(b)) == Join(Bag(a), Bag(b))
  {
  }

  /** Taking the first item apart moves its proxies to the result and its children to the back of the queue. */
  lemma PopExpands(src: Sources, queue: seq<Item>, proxies: ProxySet)
    requires Base64Law(src) && queue != []
    ensures match ParseLocal(src, queue[0].content, queue[0].source, queue[0].allowSubscriptions)
            case Err(_) => Join(Bag(proxies), ExpandAll(src, queue)) == Failed
            case Ok(parsed) =>
              Join(Bag(proxies.Extend(parsed.proxies)), ExpandAll(src, queue[1..] + Children(src, queue[0], parsed)))
              == Join(Bag(proxies), ExpandAll(src, queue))
  {
    var item := queue[0];
    ExpandFirst(src, queue);
    match ParseLocal(src, item.content, item.source, item.allowSubscriptions)
    case Err(_) =>
    case Ok(parsed) =>
      ChildrenBelow(src, item);
      BelowIsAll(src, Children(src, item, parsed), Left(item.depth), |item.content|);
      ExpandAppend(src, queue[1..], Children(src, item, parsed));
      BagExtend(proxies, parsed.proxies);
      var children := ExpandAll(src, Children(src, item, parsed));
      JoinRegroups(Bag(proxies), Bag(parsed.proxies), children, ExpandAll(src, queue[1..]));
  }

  // ----- termination, whatever the downloads return -----

  /** The content still to be read at one depth. */
  function Weight(queue: seq<Item>, depth: nat): nat {
    if queue == [] then 0
    else (if queue[0].depth == depth then |queue[0].content| + 1 else 0) + Weight(queue[1..], depth)
  }

  lemma {:induction false} WeightAppend(a: seq<Item>, b: seq<Item>, depth: nat)
    ensures Weight(a + b, depth) == Weight(a, depth) + Weight(b, depth)
  {
    if a == [] {
      assert a + b == b;
    } else {
      assert (a + b)[1..] == a[1..] + b;
      WeightAppend(a[1..], b, depth);
    }
  }

  lemma {:induction false} WeightElsewhere(items: seq<Item>, depth: nat)
    requires forall c :: c in items ==> c.depth != depth
    ensures Weight(items, depth) == 0
  {
    if items != [] {
      WeightElsewhere(items[1..], depth);
    }
  }

  /** Replacing the first item by at most one shorter item of its depth and any number of deeper ones, with
      any content at all, lowers the weight at its depth and leaves the shallower depths alone. */
  lemma PopLowersWeight(queue: seq<Item>, unwrapped: seq<Item>, deeper: seq<Item>)
    requires queue != []
    requires |unwrapped| <= 1
    requires forall c :: c in unwrapped ==> c.depth == queue[0].depth && |c.content| < |queue[0].content|
    requires forall c :: c in deeper ==> c.depth > queue[0].depth
    ensures var next := queue[1..] + (unwrapped + deeper);
      && Weight(next, queue[0].depth) < Weight(queue, queue[0].depth)
      && forall d: nat :: d < queue[0].depth ==> Weight(next, d) == Weight(queue, d)
  {
    forall d: nat | d <= queue[0].depth
      ensures Weight(queue[1..] + (unwrapped + deeper), d) == Weight(queue[1..], d) + Weight(unwrapped, d)
      ensures d < queue[0].depth ==> Weight(unwrapped, d) == 0
    {
      WeightAppend(queue[1..], unwrapped + deeper, d);
      WeightAppend(unwrapped, deeper, d);
      WeightElsewhere(deeper, d);
      if d < queue[0].depth {
        WeightElsewhere(unwrapped, d);
      }
    }
    var d := queue[0].depth;
    assert Weight(queue[1..] + (unwrapped + deeper), d) == Weight(queue[1..], d) + Weight(unwrapped, d);
    if unwrapped != [] {
      assert unwrapped[0] in unwrapped && unwrapped[1..] == [];
      assert Weight(unwrapped, d) == |unwrapped[0].content| + 1;
    }
  }

  ghost predicate DepthBounded(queue: seq<Item>) {
    forall c :: c in queue ==> c.depth <= MAX_SUBSCRIPTION_DEPTH
  }

  /** Lighter at some depth and unchanged at every shallower one: the loop's measure goes down. */
  ghost predicate Lighter(next: seq<Item>, queue: seq<Item>) {
    || Weight(next, 0) < Weight(queue, 0)
    || (Weight(next, 0) == Weight(queue, 0)
        && (|| Weight(next, 1) < Weight(queue, 1)
            || (Weight(next, 1) == Weight(queue, 1)
                && (|| Weight(next, 2) < Weight(queue, 2)
                    || (Weight(next, 2) == Weight(queue, 2)
                        && (|| Weight(next, 3) < Weight(queue, 3)
                            || (Weight(next, 3) == Weight(queue, 3) && Weight(next, 4) < Weight(queue, 4))))))))
  }

  /** One turn of the loop: the queue gets lighter and the expansion still to come is accounted for. */
  lemma Turn(src: Sources, queue: seq<Item>, proxies: ProxySet, parsed: LocalParse)
    requires Base64Law(src) && queue != [] && DepthBounded(queue)
    requires ParseLocal(src, queue[0].content, queue[0].source, queue[0].allowSubscriptions) == Ok(parsed)
    ensures var next := queue[1..] + Children(src, queue[0], parsed);
      && DepthBounded(next) && Lighter(next, queue)
      && Join(Bag(proxies.Extend(parsed.proxies)), ExpandAll(src, next)) == Join(Bag(proxies), ExpandAll(src, queue))
  {
    var item := queue[0];
    assert item in queue;
    PopExpands(src, queue, proxies);
    ChildrenBelow(src, item);
    FetchedDeeper(src, item, parsed.urls);
    PopLowersWeight(queue, DecodedItems(item, parsed.decoded),
      if item.depth >= MAX_SUBSCRIPTION_DEPTH then [] else FetchedItems(src, item, parsed.urls));
  }

  // ----- a reading of the source, place by place -----

  function Parent(p: Position): Position
    requires p != []
  {
    p[..|p| - 1]
  }

  /** A text and the name it is known by. */
  datatype Place = Place(text: string, source: string)

  function NativeLines(lines: seq<Line>): seq<string> {
    if lines == [] then [] else
    NativeLines(lines[..|lines| - 1])
    + match lines[|lines| - 1] case NativeLine(p) => [p] case _ => []
  }

  function ComplexLines(lines: seq<Line>): seq<string> {
    if lines == [] then [] else
    ComplexLines(lines[..|lines| - 1])
    + match lines[|lines| - 1] case ComplexLine(p) => [p] case _ => []
  }

  function UrlLines(lines: seq<Line>): seq<string> {
    if lines == [] then [] else
    UrlLines(lines[..|lines| - 1])
    + match lines[|lines| - 1] case OtherLine(text, isUrl) => (if isUrl then [text] else []) case _ => []
  }

  /** A text that is not base64 and not a well-formed Clash document either, although it looks like one. */
  predicate Broken(src: Sources, place: Place) {
    DecodeBase64(src, place.text) == None && src.clash(place.text, place.source).Err?
  }

  /** The proxies that a text holds itself. */
  function Own(src: Sources, place: Place): ProxySet {
    if DecodeBase64(src, place.text).Some? then NO_PROXIES else
    match src.clash(place.text, place.source)
    case Err(_) => NO_PROXIES
    case Ok(Some(document)) => document.0
    case Ok(None) => ProxySet(NativeLines(src.lines(place.text)), ComplexLines(src.lines(place.text)))
  }

  /** The subscriptions that a text names: a Clash document its providers', plain lines only if they stand in the
      source itself. */
  function Named(src: Sources, place: Place, isSource: bool): seq<string> {
    if DecodeBase64(src, place.text).Some? then [] else
    match src.clash(place.text, place.source)
    case Err(_) => []
    case Ok(Some(document)) => document.1
    case Ok(None) => if isSource then UrlLines(src.lines(place.text)) else []
  }

  /** How many downloads lie on the way to a place. */
  function Downloads(p: Position): nat {
    if p == [] then 0 else Downloads(Parent(p)) + p[|p| - 1] % 2
  }

  /** What stands at a place: the source at the root, below a base64 text its contents, below a text that names
      subscriptions their downloads, up to four of them on one way. */
  function At(src: Sources, root: Place, p: Position): Option<Place>
    decreases |p|
  {
    if p == [] then Some(root) else
    var q, last := Parent(p), p[|p| - 1];
    match At(src, root, q)
    case None => None
    case Some(above) =>
      if last % 2 == 0 then
        var inner := DecodeBase64(src, above.text);
        if last == 0 && inner.Some? then Some(Place(inner.value, above.source + " <base64>")) else None
      else
        var urls := Named(src, above, q == []);
        if Downloads(q) < 4 && last / 2 < |urls| && src.fetch(p, urls[last / 2]).Some?
        then Some(Place(src.fetch(p, urls[last / 2]).value, urls[last / 2]))
        else None
  }

  /** The place is that of a download: some text above names a subscription for it, and is not too deep. */
  predicate AskedFor(src: Sources, root: Place, p: Position) {
    && p != [] && p[|p| - 1] % 2 == 1 && At(src, root, Parent(p)).Some? && Downloads(Parent(p)) < 4
    && p[|p| - 1] / 2 < |Named(src, At(src, root, Parent(p)).value, Parent(p) == [])|
  }

  function AskedUrl(src: Sources, root: Place, p: Position): string
    requires AskedFor(src, root, p)
  {
    Named(src, At(src, root, Parent(p)).value, Parent(p) == [])[p[|p| - 1] / 2]
  }

  function OwnAt(src: Sources, root: Place, p: Position): ProxySet {
    if At(src, root, p).Some? then Own(src, At(src, root, p).value) else NO_PROXIES
  }

  /** The proxies of these places, in this order. */
  function Gather(src: Sources, root: Place, places: seq<Position>): ProxySet {
    if places == [] then NO_PROXIES
    else Gather(src, root, places[..|places| - 1]).Extend(OwnAt(src, root, places[|places| - 1]))
  }

  lemma GatherSnoc(src: Sources, root: Place, places: seq<Position>, p: Position)
    ensures Gather(src, root, places + [p]) == Gather(src, root, places).Extend(OwnAt(src, root, p))
  {
    assert (places + [p])[..|places|] == places;
  }

  /** Nothing lies deeper than four downloads, and nothing below nothing. */
  lemma {:induction false} FourDownloads(src: Sources, root: Place, p: Position)
    requires At(src, root, p).Some?
    ensures Downloads(p) <= 4
    ensures p != [] ==> At(src, root, Parent(p)).Some?
  {
    if p != [] {
      FourDownloads(src, root, Parent(p));
    }
  }

  /** What names a download: the source itself, or a Clash document further down. */
  lemma OnlyDocumentsNameMore(src: Sources, root: Place, p: Position)
    requires AskedFor(src, root, p) && |p| > 1
    ensures var above := At(src, root, Parent(p)).value; var document := src.clash(above.text, above.source);
      document.Ok? && document.value.Some? && AskedUrl(src, root, p) in document.value.value.1
  {
  }

  /** Downloads that are not asked for do not matter: not below texts that are no Clash documents, not below the
      fourth download, whatever would be found there. */
  lemma {:induction false} UnaskedDoesNotMatter(src: Sources, other: Sources, root: Place, p: Position)
    requires other == src.(fetch := other.fetch)
    requires forall q :: AskedFor(src, root, q) ==>
      src.fetch(q, AskedUrl(src, root, q)) == other.fetch(q, AskedUrl(src, root, q))
    ensures At(src, root, p) == At(other, root, p)
    ensures AskedFor(src, root, p) == AskedFor(other, root, p)
    decreases |p|
  {
    if p != [] {
      UnaskedDoesNotMatter(src, other, root, Parent(p));
      assert AskedFor(src, root, p) ==>
        src.fetch(p, AskedUrl(src, root, p)) == other.fetch(p, AskedUrl(src, root, p));
    }
  }

  lemma {:induction false} GatherSame(src: Sources, other: Sources, root: Place, places: seq<Position>)
    requires other == src.(fetch := other.fetch)
    requires forall p :: p in places ==> At(src, root, p) == At(other, root, p)
    ensures Gather(src, root, places) == Gather(other, root, places)
  {
    if places != [] {
      assert places[|places| - 1] in places;
      GatherSame(src, other, root, places[..|places| - 1]);
    }
  }

  lemma JoinGroups(a: Outcome, b: Outcome, c: Outcome)
    ensures Join(Join(a, b), c) == Join(a, Join(b, c)) == Join(Join(a, c), b)
  {
  }

  lemma GatherOneMore(src: Sources, root: Place, a: seq<Position>, b: seq<Position>, p: Position)
    requires Bag(Gather(src, root, a + b)) == Join(Bag(Gather(src, root, a)), Bag(Gather(src, root, b)))
    ensures Bag(Gather(src, root, a + (b + [p]))) == Join(Bag(Gather(src, root, a)), Bag(Gather(src, root, b + [p])))
  {
    var own := OwnAt(src, root, p);
    assert a + (b + [p]) == (a + b) + [p];
    GatherSnoc(src, root, a + b, p);
    GatherSnoc(src, root, b, p);
    BagExtend(Gather(src, root, a + b), own);
    BagExtend(Gather(src, root, b), own);
    JoinGroups(Bag(Gather(src, root, a)), Bag(Gather(src, root, b)), Bag(own));
  }

  lemma {:induction false} GatherBoth(src: Sources, root: Place, a: seq<Position>, b: seq<Position>)
    ensures Bag(Gather(src, root, a + b)) == Join(Bag(Gather(src, root, a)), Bag(Gather(src, root, b)))
    decreases |b|
  {
    if b == [] {
      assert a + b == a;
    } else {
      var init, last := b[..|b| - 1], b[|b| - 1];
      assert b == init + [last];
      GatherBoth(src, root, a, init);
      GatherOneMore(src, root, a, init, last);
    }
  }

  lemma NoneOrFirst(s: seq<Position>)
    ensures s == [] || s[0] in s
  {
  }

  lemma GatherWithout(src: Sources, root: Place, places: seq<Position>, i: nat)
    requires i < |places|
    ensures Bag(Gather(src, root, places)) ==
      Join(Bag(Gather(src, root, places[..i] + places[i + 1..])), Bag(OwnAt(src, root, places[i])))
  {
    var before, p, after := places[..i], places[i], places[i + 1..];
    assert places == before + [p] + after;
    GatherBoth(src, root, before + [p], after);
    GatherSnoc(src, root, before, p);
    BagExtend(Gather(src, root, before), OwnAt(src, root, p));
    GatherBoth(src, root, before, after);
    JoinGroups(Bag(Gather(src, root, before)), Bag(OwnAt(src, root, p)), Bag(Gather(src, root, after)));
    JoinGroups(Bag(Gather(src, root, before)), Bag(Gather(src, root, after)), Bag(OwnAt(src, root, p)));
  }

  /** The order does not matter to what is loaded. */
  lemma {:induction false} GatherPermuted(src: Sources, root: Place, a: seq<Position>, b: seq<Position>)
    requires Distinct(a) && Distinct(b) && (forall p :: p in a <==> p in b)
    ensures Bag(Gather(src, root, a)) == Bag(Gather(src, root, b))
    decreases |a|
  {
    if a == [] {
      NoneOrFirst(b);
    } else {
      var p := a[|a| - 1];
      assert p in b;
      var i: nat :| i < |b| && b[i] == p;
      var init, rest := a[..|a| - 1], b[..i] + b[i + 1..];
      assert a == init + [p] && b == b[..i] + [p] + b[i + 1..];
      forall q
        ensures q in init <==> q in rest
      {
        DistinctParts(a, |a| - 1, q);
        DistinctParts(b, i, q);
        assert a[|a|..] == [] && init + a[|a|..] == init;
      }
      DistinctRest(a, |a| - 1);
      DistinctRest(b, i);
      assert a[..|a| - 1] + a[|a|..] == init;
      GatherPermuted(src, root, init, rest);
      GatherWithout(src, root, b, i);
      GatherWithout(src, root, a, |a| - 1);
    }
  }

  lemma DistinctParts(s: seq<Position>, i: nat, q: Position)
    requires Distinct(s) && i < |s|
    ensures q in s[..i] + s[i + 1..] <==> q in s && q != s[i]
  {
    assert s == s[..i] + [s[i]] + s[i + 1..];
    if q in s && q != s[i] {
      var k :| 0 <= k < |s| && s[k] == q;
      assert if k < i then s[..i][k] == q else s[i + 1..][k - i - 1] == q;
    }
  }

  lemma DistinctRest(s: seq<Position>, i: nat)
    requires Distinct(s) && i < |s|
    ensures Distinct(s[..i] + s[i + 1..])
  {
    var rest := s[..i] + s[i + 1..];
    forall j, k | 0 <= j < k < |rest|
      ensures rest[j] != rest[k]
    {
      assert rest[j] == s[if j < i then j else j + 1] && rest[k] == s[if k < i then k else k + 1];
    }
  }

  predicate StandsAt(text: string, i: nat, part: string) {
    i + |part| <= |text| && text[i..i + |part|] == part
  }

  lemma {:induction false} ContainsExactly(text: string, part: string)
    requires part != []
    ensures Contains(text, part) <==> exists i :: StandsAt(text, i, part)
    decreases |text|
  {
    if text != [] {
      var tail := text[1..];
      ContainsExactly(tail, part);
      forall i: nat
        ensures StandsAt(tail, i, part) <==> StandsAt(text, i + 1, part)
      {
        assert i + |part| <= |tail| ==> tail[i..i + |part|] == text[i + 1..i + 1 + |part|];
      }
      assert StandsAt(text, 0, part) <==> |part| <= |text| && text[..|part|] == part;
      if i: nat :| StandsAt(text, i, part) {
        assert i > 0 ==> StandsAt(tail, i - 1, part);
      }
      if i: nat :| StandsAt(tail, i, part) {
        assert StandsAt(text, i + 1, part);
      }
    }
  }

  lemma {:induction false} StripKeeps(s: string)
    ensures NoWhitespace(StripWhitespace(s))
    ensures NoWhitespace(s) ==> StripWhitespace(s) == s
  {
    if s != [] {
      StripKeeps(s[1..]);
      assert s == [s[0]] + s[1..];
    }
  }

  /** Base64 text is at least eight characters of the two alphabets, blanks aside, that decode, by the standard
      alphabet if that gives something like a source, to a text that mentions a scheme or a list of proxies. */
  lemma UnwrappedExactly(src: Sources, text: string, inner: string)
    ensures DecodeBase64(src, text) == Some(inner) <==>
      var plain := StripWhitespace(text);
      var likely := (t: Option<string>) => t.Some? && (Contains(t.value, "://") || Contains(t.value, "proxies:"));
      && |plain| >= 8 && LooksLikeBase64(plain)
      && (if likely(src.standardBase64(plain)) then src.standardBase64(plain) == Some(inner)
          else likely(src.urlSafeBase64(plain)) && src.urlSafeBase64(plain) == Some(inner))
  {
  }

  // ----- no place is asked twice -----

  /** The places of the queue are all different and not yet done, whatever has a parent has a done one, and
      no place was asked for twice. */
  ghost predicate Tracked(queue: seq<Item>, done: set<Position>, asked: seq<Position>) {
    && (forall i, j :: 0 <= i < j < |queue| ==> queue[i].position != queue[j].position)
    && (forall item :: item in queue ==> item.position !in done)
    && (forall item :: item in queue && item.position != [] ==> Parent(item.position) in done)
    && (forall p :: p in done && p != [] ==> Parent(p) in done)
    && (forall p :: p in asked ==> p != [] && Parent(p) in done)
    && Distinct(asked)
  }

  lemma FetchedPlace(src: Sources, item: Item, urls: seq<string>, c: Item)
    requires c in FetchedItems(src, item, urls)
    ensures c.position != [] && Parent(c.position) == item.position
    ensures c.position[|item.position|] % 2 == 1 && c.position[|item.position|] < 2 * |urls|
  {
    var i := FetchedOnly(src, item, urls, c);
    OneStep(item, 2 * i + 1);
  }

  lemma {:induction false} FetchedPlaces(src: Sources, item: Item, urls: seq<string>)
    ensures forall i, j :: 0 <= i < j < |FetchedItems(src, item, urls)| ==>
      FetchedItems(src, item, urls)[i].position != FetchedItems(src, item, urls)[j].position
  {
    if urls != [] {
      var init := urls[..|urls| - 1];
      var before, all := FetchedItems(src, item, init), FetchedItems(src, item, urls);
      FetchedPlaces(src, item, init);
      forall i, j | 0 <= i < j < |all|
        ensures all[i].position != all[j].position
      {
        assert all[i] == before[i] && before[i] in before;
        FetchedPlace(src, item, init, before[i]);
        assert j == |before| ==> all[j].position == DownloadAt(item, |init|);
      }
    }
  }

  /** What an item leads to by downloads, unless it is too deep. */
  function Deeper(src: Sources, item: Item, parsed: LocalParse): seq<Item> {
    if item.depth >= MAX_SUBSCRIPTION_DEPTH then [] else FetchedItems(src, item, parsed.urls)
  }

  lemma ChildPlace(src: Sources, item: Item, parsed: LocalParse, c: Item)
    requires c in Children(src, item, parsed)
    ensures c.position != [] && Parent(c.position) == item.position
  {
    if c in Deeper(src, item, parsed) {
      FetchedPlace(src, item, parsed.urls, c);
    } else {
      var i :| 0 <= i < |parsed.decoded| && c == DecodedItems(item, parsed.decoded)[i];
      OneStep(item, 2 * i);
    }
  }

  lemma TwoChildren(src: Sources, item: Item, parsed: LocalParse, i: nat, j: nat)
    requires i < j < |Children(src, item, parsed)|
    ensures Children(src, item, parsed)[i].position != Children(src, item, parsed)[j].position
  {
    var unwrapped, deeper := DecodedItems(item, parsed.decoded), Deeper(src, item, parsed);
    var n := |unwrapped|;
    if i < n {
      assert unwrapped[i].position[|item.position|] == 2 * i;
    }
    if j < n {
      assert unwrapped[j].position[|item.position|] == 2 * j;
    } else {
      assert deeper[j - n] in deeper;
      FetchedPlace(src, item, parsed.urls, deeper[j - n]);
      FetchedPlaces(src, item, parsed.urls);
    }
  }

  /** An item's children stand right below it, each in a place of its own. */
  lemma ChildrenPlaces(src: Sources, item: Item, parsed: LocalParse)
    ensures forall c :: c in Children(src, item, parsed) ==> c.position != [] && Parent(c.position) == item.position
    ensures forall i, j :: 0 <= i < j < |Children(src, item, parsed)| ==>
      Children(src, item, parsed)[i].position != Children(src, item, parsed)[j].position
  {
    var children := Children(src, item, parsed);
    forall c | c in children
      ensures c.position != [] && Parent(c.position) == item.position
    {
      ChildPlace(src, item, parsed, c);
    }
    forall i: nat, j: nat | i < j < |children|
      ensures children[i].position != children[j].position
    {
      TwoChildren(src, item, parsed, i, j);
    }
  }

  function Asked(item: Item, urls: seq<string>): (asked: seq<Position>)
    ensures |asked| == |urls|
  {
    seq(|urls|, i requires 0 <= i < |urls| => DownloadAt(item, i))
  }

  lemma AskedPlaces(item: Item, urls: seq<string>)
    ensures forall p :: p in Asked(item, urls) ==> p != [] && Parent(p) == item.position
    ensures Distinct(Asked(item, urls))
  {
    forall i, j | 0 <= i < j < |urls|
      ensures Asked(item, urls)[i] != Asked(item, urls)[j]
    {
      assert DownloadAt(item, i)[|item.position|] != DownloadAt(item, j)[|item.position|];
    }
  }

  /** Taking an item apart keeps track of the places. */
  lemma TrackedTurn(
      queue: seq<Item>, done: set<Position>, asked: seq<Position>, children: seq<Item>, now: seq<Position>)
    requires queue != [] && Tracked(queue, done, asked)
    requires forall c :: c in children ==> c.position != [] && Parent(c.position) == queue[0].position
    requires forall i, j :: 0 <= i < j < |children| ==> children[i].position != children[j].position
    requires Distinct(now) && forall p :: p in now ==> p != [] && Parent(p) == queue[0].position
    ensures Tracked(queue[1..] + children, done + {queue[0].position}, asked + now)
  {
    var q := queue[0].position;
    assert queue[0] in queue;
    assert forall item :: item in queue[1..] ==> item in queue && item.position != q;
    forall c | c in children
      ensures c.position !in done + {q}
      ensures forall item :: item in queue[1..] ==> item.position != c.position
    {
      assert |c.position| == |q| + 1;
    }
    var next := queue[1..] + children;
    forall i, j | 0 <= i < j < |next|
      ensures next[i].position != next[j].position
    {
      if i < |queue[1..]| <= j {
        assert next[i] in queue[1..] && next[j] in children;
      } else if j < |queue[1..]| {
        assert next[i] == queue[i + 1] && next[j] == queue[j + 1];
      }
    }
    forall i, j | 0 <= i < j < |asked + now|
      ensures (asked + now)[i] != (asked + now)[j]
    {
      if i < |asked| <= j {
        assert asked[i] in asked && now[j - |asked|] in now;
      }
    }
  }

  // ----- the queue follows the reading -----

  /** The item is what the reading finds at its place; only the source itself may name subscriptions in lines. */
  ghost predicate Stands(src: Sources, root: Place, item: Item) {
    && At(src, root, item.position) == Some(Place(item.content, item.source))
    && item.depth == Downloads(item.position)
    && (item.allowSubscriptions <==> item.position == [])
  }

  lemma {:induction false} LinesRead(lines: seq<Line>, allowSubscriptions: bool)
    ensures ParseLines(lines, allowSubscriptions) == LocalParse(
      ProxySet(NativeLines(lines), ComplexLines(lines)), if allowSubscriptions then UrlLines(lines) else [], [])
  {
    if lines != [] {
      LinesRead(lines[..|lines| - 1], allowSubscriptions);
    }
  }

  lemma LocalRead(src: Sources, root: Place, item: Item)
    requires Stands(src, root, item)
    ensures var place := Place(item.content, item.source);
      match ParseLocal(src, item.content, item.source, item.allowSubscriptions)
      case Err(_) => Broken(src, place)
      case Ok(parsed) =>
        && !Broken(src, place) && parsed.proxies == Own(src, place)
        && parsed.urls == Named(src, place, item.position == [])
        && parsed.decoded == var inner := DecodeBase64(src, item.content); if inner.Some? then [inner.value] else []
  {
    LinesRead(src.lines(item.content), item.allowSubscriptions);
  }

  lemma {:induction false} FetchedOnly(src: Sources, item: Item, urls: seq<string>, c: Item) returns (i: nat)
    requires c in FetchedItems(src, item, urls)
    ensures i < |urls| && src.fetch(DownloadAt(item, i), urls[i]).Some?
    ensures var body := src.fetch(DownloadAt(item, i), urls[i]).value;
      c == Item(body, urls[i], item.depth + 1, false, DownloadAt(item, i))
  {
    var init := urls[..|urls| - 1];
    if c in FetchedItems(src, item, init) {
      i := FetchedOnly(src, item, init, c);
    } else {
      i := |urls| - 1;
    }
  }

  lemma {:induction false} FetchedAll(src: Sources, item: Item, urls: seq<string>, i: nat)
    requires i < |urls| && src.fetch(DownloadAt(item, i), urls[i]).Some?
    ensures exists c :: c in FetchedItems(src, item, urls) && c.position == DownloadAt(item, i)
  {
    if i < |urls| - 1 {
      FetchedAll(src, item, urls[..|urls| - 1], i);
      var c :| c in FetchedItems(src, item, urls[..|urls| - 1]) && c.position == DownloadAt(item, i);
      assert c in FetchedItems(src, item, urls);
    } else {
      var body := src.fetch(DownloadAt(item, i), urls[i]);
      assert Item(body.value, urls[i], item.depth + 1, false, DownloadAt(item, i)) in FetchedItems(src, item, urls);
    }
  }

  ghost predicate IsIn(queue: seq<Item>, p: Position) {
    exists item :: item in queue && item.position == p
  }

  lemma OneStep(item: Item, k: nat)
    ensures item.position + [k] != [] && Parent(item.position + [k]) == item.position
    ensures var p := item.position + [k]; p[|p| - 1] == k && Downloads(p) == Downloads(item.position) + k % 2
  {
  }

  lemma UnwrappedStands(src: Sources, root: Place, item: Item, parsed: LocalParse, c: Item)
    requires Stands(src, root, item) && c in DecodedItems(item, parsed.decoded)
    requires ParseLocal(src, item.content, item.source, item.allowSubscriptions) == Ok(parsed)
    ensures Stands(src, root, c) && c.position != [] && Parent(c.position) == item.position
  {
    LocalRead(src, root, item);
    OneStep(item, 0);
    assert c.position == item.position + [0];
  }

  lemma FetchedStands(src: Sources, root: Place, item: Item, parsed: LocalParse, c: Item)
    requires Stands(src, root, item) && c in FetchedItems(src, item, parsed.urls)
    requires item.depth < MAX_SUBSCRIPTION_DEPTH
    requires ParseLocal(src, item.content, item.source, item.allowSubscriptions) == Ok(parsed)
    ensures Stands(src, root, c) && c.position != [] && Parent(c.position) == item.position
  {
    LocalRead(src, root, item);
    var i := FetchedOnly(src, item, parsed.urls, c);
    OneStep(item, 2 * i + 1);
    assert c.position == item.position + [2 * i + 1];
    assert (2 * i + 1) / 2 == i && (2 * i + 1) % 2 == 1;
  }

  lemma ChildrenStand(src: Sources, root: Place, item: Item, parsed: LocalParse, c: Item)
    requires Stands(src, root, item) && c in Children(src, item, parsed)
    requires ParseLocal(src, item.content, item.source, item.allowSubscriptions) == Ok(parsed)
    ensures Stands(src, root, c)
  {
    if c in DecodedItems(item, parsed.decoded) {
      UnwrappedStands(src, root, item, parsed, c);
    } else {
      FetchedStands(src, root, item, parsed, c);
    }
  }

  lemma ChildrenComplete(src: Sources, root: Place, item: Item, parsed: LocalParse, k: nat)
    requires Stands(src, root, item) && At(src, root, item.position + [k]).Some?
    requires ParseLocal(src, item.content, item.source, item.allowSubscriptions) == Ok(parsed)
    ensures IsIn(Children(src, item, parsed), item.position + [k])
  {
    LocalRead(src, root, item);
    var p := item.position + [k];
    assert Parent(p) == item.position && p[|p| - 1] == k;
    if k % 2 == 0 {
      assert DecodedItems(item, parsed.decoded)[0].position == UnwrappedAt(item, 0) == p;
      assert DecodedItems(item, parsed.decoded)[0] in Children(src, item, parsed);
    } else {
      assert DownloadAt(item, k / 2) == p;
      FetchedAll(src, item, parsed.urls, k / 2);
      var c :| c in FetchedItems(src, item, parsed.urls) && c.position == p;
      assert c in Children(src, item, parsed);
    }
  }

  /** The places of an item's downloads. */
  function AskedNow(item: Item, parsed: LocalParse): seq<Position> {
    if item.depth >= MAX_SUBSCRIPTION_DEPTH then [] else Asked(item, parsed.urls)
  }

  lemma AskedIsFor(src: Sources, root: Place, item: Item, parsed: LocalParse, p: Position)
    requires Stands(src, root, item) && p in AskedNow(item, parsed)
    requires ParseLocal(src, item.content, item.source, item.allowSubscriptions) == Ok(parsed)
    ensures p != [] && AskedFor(src, root, p) && Parent(p) == item.position
  {
    LocalRead(src, root, item);
    var i :| 0 <= i < |parsed.urls| && p == DownloadAt(item, i);
    OneStep(item, 2 * i + 1);
    assert (2 * i + 1) / 2 == i && (2 * i + 1) % 2 == 1;
  }

  lemma ForIsAsked(src: Sources, root: Place, item: Item, parsed: LocalParse, p: Position)
    requires Stands(src, root, item) && AskedFor(src, root, p) && Parent(p) == item.position
    requires ParseLocal(src, item.content, item.source, item.allowSubscriptions) == Ok(parsed)
    ensures p in AskedNow(item, parsed)
  {
    LocalRead(src, root, item);
    var i := p[|p| - 1] / 2;
    assert p == item.position + [2 * i + 1];
    assert Asked(item, parsed.urls)[i] == p;
  }

  /** What the loop has read so far, and what it still has to read. */
  ghost predicate Reading(src: Sources, root: Place, queue: seq<Item>, visited: seq<Position>, asked: seq<Position>,
                          proxies: ProxySet) {
    && (forall item :: item in queue ==> Stands(src, root, item))
    && (forall p :: p in visited ==> At(src, root, p).Some? && !Broken(src, At(src, root, p).value))
    && ([] in visited || IsIn(queue, []))
    && (forall p, k :: p in visited && At(src, root, p + [k]).Some? ==> p + [k] in visited || IsIn(queue, p + [k]))
    && (forall p :: p in asked <==> p != [] && AskedFor(src, root, p) && Parent(p) in visited)
    && proxies == Gather(src, root, visited)
  }

  lemma StillIn(queue: seq<Item>, children: seq<Item>, p: Position)
    requires queue != []
    ensures IsIn(queue, p) ==> queue[0].position == p || IsIn(queue[1..] + children, p)
    ensures IsIn(children, p) ==> IsIn(queue[1..] + children, p)
  {
    if item :| item in queue && item.position == p {
      assert item == queue[0] || item in queue[1..] + children;
    }
    if item :| item in children && item.position == p {
      assert item in queue[1..] + children;
    }
  }

  lemma ReadingReaches(src: Sources, root: Place, queue: seq<Item>, visited: seq<Position>, asked: seq<Position>,
                       proxies: ProxySet, parsed: LocalParse, p: Position, k: nat)
    requires queue != [] && Reading(src, root, queue, visited, asked, proxies)
    requires ParseLocal(src, queue[0].content, queue[0].source, queue[0].allowSubscriptions) == Ok(parsed)
    requires p in visited + [queue[0].position] && At(src, root, p + [k]).Some?
    ensures p + [k] in visited + [queue[0].position] || IsIn(queue[1..] + Children(src, queue[0], parsed), p + [k])
  {
    StillIn(queue, Children(src, queue[0], parsed), p + [k]);
    if p !in visited {
      ChildrenComplete(src, root, queue[0], parsed, k);
    }
  }

  lemma AskedGoesOn(src: Sources, root: Place, item: Item, parsed: LocalParse, visited: seq<Position>,
                    asked: seq<Position>, p: Position)
    requires Stands(src, root, item)
    requires ParseLocal(src, item.content, item.source, item.allowSubscriptions) == Ok(parsed)
    requires p in asked <==> p != [] && AskedFor(src, root, p) && Parent(p) in visited
    ensures p in asked + AskedNow(item, parsed) <==>
      p != [] && AskedFor(src, root, p) && Parent(p) in visited + [item.position]
  {
    if p in AskedNow(item, parsed) {
      AskedIsFor(src, root, item, parsed, p);
    }
    if p != [] && AskedFor(src, root, p) && Parent(p) == item.position {
      ForIsAsked(src, root, item, parsed, p);
    }
  }

  lemma ReadingGoesOn(src: Sources, root: Place, queue: seq<Item>, visited: seq<Position>, asked: seq<Position>,
                      proxies: ProxySet, parsed: LocalParse)
    requires queue != [] && Reading(src, root, queue, visited, asked, proxies)
    requires ParseLocal(src, queue[0].content, queue[0].source, queue[0].allowSubscriptions) == Ok(parsed)
    ensures var item := queue[0];
      Reading(src, root, queue[1..] + Children(src, item, parsed), visited + [item.position],
        asked + AskedNow(item, parsed), proxies.Extend(parsed.proxies))
  {
    var item, children := queue[0], Children(src, queue[0], parsed);
    var next, done := queue[1..] + children, visited + [item.position];
    assert Stands(src, root, item);
    LocalRead(src, root, item);
    GatherSnoc(src, root, visited, item.position);
    forall c | c in next
      ensures Stands(src, root, c)
    {
      if c in children {
        ChildrenStand(src, root, item, parsed, c);
      }
    }
    StillIn(queue, children, []);
    forall p, k | p in done && At(src, root, p + [k]).Some?
      ensures p + [k] in done || IsIn(next, p + [k])
    {
      ReadingReaches(src, root, queue, visited, asked, proxies, parsed, p, k);
    }
    forall p
      ensures p in asked + AskedNow(item, parsed) <==> p != [] && AskedFor(src, root, p) && Parent(p) in done
    {
      AskedGoesOn(src, root, item, parsed, visited, asked, p);
    }
  }

  /** An empty queue leaves no place unread. */
  lemma {:induction false} AllRead(src: Sources, root: Place, visited: seq<Position>, asked: seq<Position>,
                                   proxies: ProxySet, p: Position)
    requires Reading(src, root, [], visited, asked, proxies) && At(src, root, p).Some?
    ensures p in visited
    decreases |p|
  {
    if p != [] {
      AllRead(src, root, visited, asked, proxies, Parent(p));
      assert p == Parent(p) + [p[|p| - 1]];
    }
  }

  /** The reading of the source is complete: every place was visited once, none of the texts is broken, the
      proxies are those of the places as visited, and exactly the named subscriptions were asked for, once each. */
  ghost predicate FullyRead(
      src: Sources, root: Place, visited: seq<Position>, asked: seq<Position>, proxies: ProxySet)
  {
    && Distinct(visited) && (forall p :: p in visited <==> At(src, root, p).Some?)
    && (forall p :: p in visited ==> !Broken(src, At(src, root, p).value))
    && Distinct(asked) && (forall p :: p in asked <==> AskedFor(src, root, p))
    && proxies == Gather(src, root, visited)
  }

  lemma ReadingEnds(src: Sources, root: Place, visited: seq<Position>, asked: seq<Position>, proxies: ProxySet)
    requires Reading(src, root, [], visited, asked, proxies) && Distinct(visited) && Distinct(asked)
    ensures FullyRead(src, root, visited, asked, proxies)
  {
    forall p | At(src, root, p).Some?
      ensures p in visited
    {
      AllRead(src, root, visited, asked, proxies, p);
    }
    forall p
      ensures p in asked <==> AskedFor(src, root, p)
    {
    }
  }

  /** Two complete readings load the same proxies, in whatever order the places were visited, and even if the
      downloads that were not asked for differ. */
  lemma SameLoad(src: Sources, other: Sources, root: Place, visited: seq<Position>, asked: seq<Position>,
                 proxies: ProxySet, visited': seq<Position>, asked': seq<Position>, proxies': ProxySet)
    requires FullyRead(src, root, visited, asked, proxies) && FullyRead(other, root, visited', asked', proxies')
    requires other == src.(fetch := other.fetch)
    requires forall q :: AskedFor(src, root, q) ==>
      src.fetch(q, AskedUrl(src, root, q)) == other.fetch(q, AskedUrl(src, root, q))
    ensures Bag(proxies) == Bag(proxies')
  {
    forall p
      ensures At(src, root, p) == At(other, root, p)
    {
      UnaskedDoesNotMatter(src, other, root, p);
    }
    GatherSame(src, other, root, visited');
    GatherPermuted(src, root, visited, visited');
  }

  ghost function Members(places: seq<Position>): set<Position> {
    set p | p in places
  }

  /** First in, first out: the places are visited level by level, and the queue holds the rest of one level and
      then the next. */
  ghost predicate LevelByLevel(visited: seq<Position>) {
    forall i, j :: 0 <= i < j < |visited| ==> |visited[i]| <= |visited[j]|
  }

  function Lengths(queue: seq<Item>): (lengths: seq<nat>)
    ensures |lengths| == |queue|
  {
    seq(|queue|, i requires 0 <= i < |queue| => |queue[i].position|)
  }

  /** The rest of one level and then the next. */
  ghost predicate InLevels(lengths: seq<nat>) {
    && (forall i, j :: 0 <= i < j < |lengths| ==> lengths[i] <= lengths[j])
    && (forall i :: 0 <= i < |lengths| ==> lengths[i] <= lengths[0] + 1)
  }

  ghost predicate Levels(queue: seq<Item>, visited: seq<Position>) {
    && LevelByLevel(visited) && InLevels(Lengths(queue))
    && (forall p, item :: p in visited && item in queue ==> |p| <= |item.position|)
  }

  lemma LengthsGoOn(lengths: seq<nat>, more: seq<nat>)
    requires lengths != [] && InLevels(lengths) && forall i :: 0 <= i < |more| ==> more[i] == lengths[0] + 1
    ensures InLevels(lengths[1..] + more)
    ensures forall i :: 0 <= i < |lengths[1..] + more| ==> lengths[0] <= (lengths[1..] + more)[i]
  {
    var next, n := lengths[1..] + more, |lengths| - 1;
    assert forall i :: 0 <= i < |next| ==> next[i] == if i < n then lengths[i + 1] else lengths[0] + 1;
  }

  lemma QueueGoesOn(queue: seq<Item>, children: seq<Item>)
    requires queue != [] && InLevels(Lengths(queue))
    requires forall c :: c in children ==> |c.position| == |queue[0].position| + 1
    ensures InLevels(Lengths(queue[1..] + children))
    ensures forall item :: item in queue[1..] + children ==> |queue[0].position| <= |item.position|
  {
    var next := queue[1..] + children;
    forall i | 0 <= i < |children|
      ensures Lengths(children)[i] == Lengths(queue)[0] + 1
    {
      assert children[i] in children;
    }
    LengthsGoOn(Lengths(queue), Lengths(children));
    assert Lengths(next) == Lengths(queue)[1..] + Lengths(children);
    forall item | item in next
      ensures |queue[0].position| <= |item.position|
    {
      var i :| 0 <= i < |next| && next[i] == item;
      assert Lengths(next)[i] == |item.position|;
    }
  }

  lemma LevelsGoOn(queue: seq<Item>, visited: seq<Position>, children: seq<Item>)
    requires queue != [] && Levels(queue, visited)
    requires forall c :: c in children ==> |c.position| == |queue[0].position| + 1
    ensures Levels(queue[1..] + children, visited + [queue[0].position])
  {
    QueueGoesOn(queue, children);
    var head, done := queue[0], visited + [queue[0].position];
    assert head in queue;
    forall i: nat, j: nat | i < j < |done|
      ensures |done[i]| <= |done[j]|
    {
      assert done[i] == visited[i] && visited[i] in visited;
    }
    forall p, item | p in done && item in queue[1..] + children
      ensures |p| <= |item.position|
    {
      assert p in visited ==> |p| <= |head.position|;
    }
  }

  /** What the loop keeps: bounded depths, places of their own, the reading so far, and the expansion still to come. */
  ghost predicate Loading(src: Sources, root: Place, queue: seq<Item>, proxies: ProxySet, visited: seq<Position>,
                          asked: seq<Position>, expected: Outcome)
    requires Base64Law(src)
  {
    && DepthBounded(queue) && Distinct(visited) && Tracked(queue, Members(visited), asked)
    && Reading(src, root, queue, visited, asked, proxies) && Levels(queue, visited)
    && Join(Bag(proxies), ExpandAll(src, queue)) == expected
  }

  ghost predicate SomewhereBroken(src: Sources, root: Place) {
    exists p :: At(src, root, p).Some? && Broken(src, At(src, root, p).value)
  }

  lemma ReadingStarts(src: Sources, root: Place)
    ensures Reading(src, root, [Item(root.text, root.source, 0, true, [])], [], [], NO_PROXIES)
  {
    var queue := [Item(root.text, root.source, 0, true, [])];
    assert queue[0] in queue && queue[0].position == [];
  }

  lemma ExpansionStarts(src: Sources, item: Item)
    requires Base64Law(src)
    ensures Join(Bag(NO_PROXIES), ExpandAll(src, [item])) == Expand(src, item)
  {
    ExpandFirst(src, [item]);
    assert [item][1..] == [];
  }

  lemma LoadingStarts(src: Sources, root: Place)
    requires Base64Law(src)
    ensures var item := Item(root.text, root.source, 0, true, []);
      Loading(src, root, [item], NO_PROXIES, [], [], Expand(src, item))
  {
    ReadingStarts(src, root);
    ExpansionStarts(src, Item(root.text, root.source, 0, true, []));
  }

  lemma TrackingGoesOn(src: Sources, queue: seq<Item>, visited: seq<Position>, asked: seq<Position>, parsed: LocalParse)
    requires queue != [] && Distinct(visited) && Tracked(queue, Members(visited), asked)
    ensures var item := queue[0]; var done := visited + [item.position];
      && Distinct(done)
      && Tracked(queue[1..] + Children(src, item, parsed), Members(done), asked + AskedNow(item, parsed))
  {
    var item := queue[0];
    assert item in queue;
    ChildrenPlaces(src, item, parsed);
    AskedPlaces(item, parsed.urls);
    TrackedTurn(queue, Members(visited), asked, Children(src, item, parsed), AskedNow(item, parsed));
    assert Members(visited + [item.position]) == Members(visited) + {item.position};
  }

  lemma LoadingGoesOn(src: Sources, root: Place, queue: seq<Item>, proxies: ProxySet, visited: seq<Position>,
                      asked: seq<Position>, expected: Outcome, parsed: LocalParse)
    requires Base64Law(src) && queue != [] && Loading(src, root, queue, proxies, visited, asked, expected)
    requires ParseLocal(src, queue[0].content, queue[0].source, queue[0].allowSubscriptions) == Ok(parsed)
    ensures var item := queue[0]; var next := queue[1..] + Children(src, item, parsed);
      && Loading(src, root, next, proxies.Extend(parsed.proxies), visited + [item.position],
                 asked + AskedNow(item, parsed), expected)
      && Lighter(next, queue)
  {
    Turn(src, queue, proxies, parsed);
    TrackingGoesOn(src, queue, visited, asked, parsed);
    ChildrenPlaces(src, queue[0], parsed);
    LevelsGoOn(queue, visited, Children(src, queue[0], parsed));
    ReadingGoesOn(src, root, queue, visited, asked, proxies, parsed);
  }

  lemma LoadingEnds(src: Sources, root: Place, proxies: ProxySet, visited: seq<Position>, asked: seq<Position>,
                    expected: Outcome)
    requires Base64Law(src) && Loading(src, root, [], proxies, visited, asked, expected)
    ensures FullyRead(src, root, visited, asked, proxies) && LevelByLevel(visited) && Bag(proxies) == expected
  {
    ReadingEnds(src, root, visited, asked, proxies);
  }

  lemma LoadingBreaks(src: Sources, root: Place, queue: seq<Item>, proxies: ProxySet, visited: seq<Position>,
                      asked: seq<Position>, expected: Outcome)
    requires Base64Law(src) && queue != [] && Loading(src, root, queue, proxies, visited, asked, expected)
    requires ParseLocal(src, queue[0].content, queue[0].source, queue[0].allowSubscriptions).Err?
    ensures expected == Failed && Distinct(asked)
    ensures SomewhereBroken(src, root)
  {
    assert queue[0] in queue;
    PopExpands(src, queue, proxies);
    LocalRead(src, root, queue[0]);
    assert Broken(src, At(src, root, queue[0].position).value);
  }

  /** The loop always ends, whatever the downloads return. Unless some text on the way is broken, the source is
      read completely, level by level: every place once, every named subscription asked for once, nothing else. What is
      loaded is, as a multiset, also the recursive expansion of the source. */
  method ParseContentQueue(src: Sources, content: string, source: string)
      returns (r: Result<ProxySet, string>, ghost visited: seq<Position>, ghost asked: seq<Position>)
    requires Base64Law(src)
    ensures (match r case Ok(proxies) => Bag(proxies) case Err(_) => Failed) ==
      Expand(src, Item(content, source, 0, true, []))
    ensures Distinct(asked)
    ensures r.Ok? ==> FullyRead(src, Place(content, source), visited, asked, r.value) && LevelByLevel(visited)
    ensures r.Err? ==> SomewhereBroken(src, Place(content, source))
  {
    ghost var root := Place(content, source);
    ghost var expected := Expand(src, Item(content, source, 0, true, []));
    var queue := [Item(content, source, 0, true, [])];
    var proxies := NO_PROXIES;
    visited, asked := [], [];
    LoadingStarts(src, root);
    while queue != []
      invariant Loading(src, root, queue, proxies, visited, asked, expected)
      decreases Weight(queue, 0), Weight(queue, 1), Weight(queue, 2), Weight(queue, 3), Weight(queue, 4)
    {
      var item := queue[0];
      var parsed := ParseLocalContent(src, item.content, item.source, item.allowSubscriptions);
      if parsed.Err? {
        LoadingBreaks(src, root, queue, proxies, visited, asked, expected);
        return Err(parsed.error), visited, asked;
      }
      LoadingGoesOn(src, root, queue, proxies, visited, asked, expected, parsed.value);
      proxies := proxies.Extend(parsed.value.proxies);
      ghost var now;
      queue, now := Enqueue(src, item, parsed.value, queue[1..]);
      visited, asked := visited + [item.position], asked + now;
    }
    LoadingEnds(src, root, proxies, visited, asked, expected);
    r := Ok(proxies);
  }

  /** Appends what an item leads to: unwrapped text first, then the subscriptions that could be fetched. */
  method Enqueue(src: Sources, item: Item, parsed: LocalParse, before: seq<Item>)
      returns (queue: seq<Item>, ghost asked: seq<Position>)
    ensures queue == before + Children(src, item, parsed)
    ensures asked == AskedNow(item, parsed)
  {
    queue, asked := before, [];
    for i := 0 to |parsed.decoded|
      invariant queue == before + DecodedItems(item, parsed.decoded[..i])
    {
      queue := queue + [Item(parsed.decoded[i], item.source + " <base64>", item.depth, false, UnwrappedAt(item, i))];
    }
    assert parsed.decoded[..|parsed.decoded|] == parsed.decoded;
    if item.depth >= MAX_SUBSCRIPTION_DEPTH {
      return;
    }
    var urls := parsed.urls;
    ghost var unwrapped := DecodedItems(item, parsed.decoded);
    for i := 0 to |urls|
      invariant queue == before + unwrapped + FetchedItems(src, item, urls[..i])
      invariant asked == Asked(item, urls[..i])
    {
      assert urls[..i + 1][..i] == urls[..i];
      var body := src.fetch(DownloadAt(item, i), urls[i]);
      asked := asked + [DownloadAt(item, i)];
      if body.Some? {
        queue := queue + [Item(body.value, urls[i], item.depth + 1, false, DownloadAt(item, i))];
      }
    }
    assert urls[..|urls|] == urls;
  }
}
