/** Text as the standard library treats it: whitespace, decimal numbers, IPv4 literals. */
module Text {
  import opened Prelude

  type byte = b: int | 0 <= b < 256

  /** The Unicode White_Space characters. */
  predicate IsWhitespace(c: char) {
    var code := c as int;
    || 0x09 <= code <= 0x0D || code == 0x20 || code == 0x85 || code == 0xA0 || code == 0x1680
    || 0x2000 <= code <= 0x200A || code == 0x2028 || code == 0x2029 || code == 0x202F
    || code == 0x205F || code == 0x3000
  }

  function TrimStart(s: string): string {
    if s != [] && IsWhitespace(s[0]) then TrimStart(s[1..]) else s
  }

  function TrimEnd(s: string): string {
    if s != [] && IsWhitespace(s[|s| - 1]) then TrimEnd(s[..|s| - 1]) else s
  }

  function Trim(s: string): string {
    TrimEnd(TrimStart(s))
  }

  predicate NoWhitespace(s: string) {
    forall c :: c in s ==> !IsWhitespace(c)
  }

  predicate IsDigit(c: char) {
    '0' <= c <= '9'
  }

  predicate AllDigits(s: string) {
    forall c :: c in s ==> IsDigit(c)
  }

  function Digit(d: nat): char
    requires d < 10
  {
    (d + '0' as int) as char
  }

  function Decimal(n: nat): (s: string)
    ensures s != [] && AllDigits(s)
    ensures n < 10 ==> s == [Digit(n)]
  {
    if n < 10 then [Digit(n)] else Decimal(n / 10) + [Digit(n % 10)]
  }

  function DigitsValue(s: string): nat
    requires AllDigits(s)
  {
    if s == [] then 0
    else
      assert s[|s| - 1] in s;
      DigitsValue(s[..|s| - 1]) * 10 + (s[|s| - 1] as int - '0' as int)
  }

  /** An optional plus sign and decimal digits with a value below `bound`. */
  function ParseUnsigned(s: string, bound: nat): Option<nat> {
    var rest := if |s| > 1 && s[0] == '+' then s[1..] else s;
    if rest != [] && AllDigits(rest) && DigitsValue(rest) < bound then Some(DigitsValue(rest)) else None
  }

  lemma {:induction false} DecimalValue(n: nat)
    ensures DigitsValue(Decimal(n)) == n
  {
    if n >= 10 {
      DecimalValue(n / 10);
      assert Decimal(n)[..|Decimal(n)| - 1] == Decimal(n / 10);
    } else {
      assert Decimal(n)[..0] == [];
    }
  }

  lemma DecimalParses(n: nat, bound: nat)
    requires n < bound
    ensures ParseUnsigned(Decimal(n), bound) == Some(n)
  {
    DecimalValue(n);
    assert Decimal(n)[0] in Decimal(n);
  }

  /** The pieces of `s` between occurrences of `c`. */
  function Split(s: string, c: char): (parts: seq<string>)
    ensures |parts| >= 1
  {
    if s == [] then [[]]
    else if s[0] == c then [[]] + Split(s[1..], c)
    else
      var rest := Split(s[1..], c);
      [[s[0]] + rest[0]] + rest[1..]
  }

  lemma {:induction false} SplitPiece(piece: string, c: char)
    requires c !in piece
    ensures Split(piece, c) == [piece]
  {
    if piece != [] {
      SplitPiece(piece[1..], c);
      assert piece == [piece[0]] + piece[1..] && piece[0] in piece;
    }
  }

  lemma {:induction false} SplitFirst(piece: string, rest: string, c: char)
    requires c !in piece
    ensures Split(piece + [c] + rest, c) == [piece] + Split(rest, c)
  {
    var s := piece + [c] + rest;
    if piece == [] {
      assert s[1..] == rest;
    } else {
      SplitFirst(piece[1..], rest, c);
      assert s[1..] == piece[1..] + [c] + rest && s[0] == piece[0] && piece[0] in piece;
      assert piece == [piece[0]] + piece[1..];
    }
  }

  function JoinWith(parts: seq<string>, c: char): string
    requires |parts| >= 1
  {
    if |parts| == 1 then parts[0] else parts[0] + [c] + JoinWith(parts[1..], c)
  }

  /** Splitting loses nothing. */
  lemma {:induction false} SplitJoins(s: string, c: char)
    ensures JoinWith(Split(s, c), c) == s
  {
    if s == [] {
    } else if s[0] == c {
      SplitJoins(s[1..], c);
      assert Split(s, c)[1..] == Split(s[1..], c);
    } else {
      SplitJoins(s[1..], c);
      var rest := Split(s[1..], c);
      assert Split(s, c)[1..] == rest[1..];
    }
  }

  /** One octet of a dotted quad: at most three digits, no leading zero, below 256. */
  predicate IsOctet(s: string) {
    && 1 <= |s| <= 3 && AllDigits(s) && (s[0] == '0' ==> |s| == 1) && DigitsValue(s) < 256
  }

  function ParseIpv4(s: string): Option<seq<byte>> {
    var parts := Split(s, '.');
    if |parts| == 4 && IsOctet(parts[0]) && IsOctet(parts[1]) && IsOctet(parts[2]) && IsOctet(parts[3])
    then Some([DigitsValue(parts[0]), DigitsValue(parts[1]), DigitsValue(parts[2]), DigitsValue(parts[3])])
    else None
  }

  function ShowIpv4(octets: seq<byte>): string
    requires |octets| == 4
  {
    Decimal(octets[0]) + "." + (Decimal(octets[1]) + "." + (Decimal(octets[2]) + "." + Decimal(octets[3])))
  }

  lemma OctetShown(b: byte)
    ensures IsOctet(Decimal(b)) && '.' !in Decimal(b)
  {
    DecimalValue(b);
    if b >= 100 {
      assert b / 10 / 10 < 10;
    }
  }

  /** A canonical octet is the decimal form of its value. */
  lemma OctetCanonical(s: string)
    requires IsOctet(s)
    ensures Decimal(DigitsValue(s)) == s
  {
    assert forall i :: 0 <= i < |s| ==> s[i] in s;
    if |s| == 1 {
      assert s[..0] == [];
    } else if |s| == 2 {
      assert s[..1][..0] == [];
      assert DigitsValue(s[..1]) == s[0] as int - '0' as int;
      assert s == [s[0], s[1]];
    } else {
      var t := s[..2];
      assert t[..1][..0] == [];
      assert DigitsValue(t[..1]) == s[0] as int - '0' as int;
      assert DigitsValue(t) == (s[0] as int - '0' as int) * 10 + (s[1] as int - '0' as int);
      assert s == [s[0], s[1], s[2]];
    }
  }

  lemma Ipv4Shown(octets: seq<byte>)
    requires |octets| == 4
    ensures ParseIpv4(ShowIpv4(octets)) == Some(octets)
  {
    var a, b, c, d := Decimal(octets[0]), Decimal(octets[1]), Decimal(octets[2]), Decimal(octets[3]);
    forall i | 0 <= i < 4
      ensures IsOctet(Decimal(octets[i])) && '.' !in Decimal(octets[i]) && DigitsValue(Decimal(octets[i])) == octets[i]
    {
      OctetShown(octets[i]);
      DecimalValue(octets[i]);
    }
    SplitPiece(d, '.');
    SplitFirst(c, d, '.');
    assert c + "." + d == c + ['.'] + d;
    SplitFirst(b, c + "." + d, '.');
    var tail := c + "." + d;
    assert b + "." + tail == b + ['.'] + tail;
    SplitFirst(a, b + "." + tail, '.');
    assert ShowIpv4(octets) == a + ['.'] + (b + "." + tail);
    assert Split(ShowIpv4(octets), '.') == [a, b, c, d];
    assert octets == [octets[0], octets[1], octets[2], octets[3]];
  }

  /** An IPv4 literal is spelled in exactly one way. */
  lemma Ipv4Canonical(s: string)
    requires ParseIpv4(s).Some?
    ensures ShowIpv4(ParseIpv4(s).value) == s
  {
    var parts := Split(s, '.');
    SplitJoins(s, '.');
    OctetCanonical(parts[0]);
    OctetCanonical(parts[1]);
    OctetCanonical(parts[2]);
    OctetCanonical(parts[3]);
    assert JoinWith(parts[3..], '.') == parts[3];
    assert JoinWith(parts[2..], '.') == parts[2] + "." + parts[3];
    assert JoinWith(parts[1..], '.') == parts[1] + "." + (parts[2] + "." + parts[3]);
  }
}
