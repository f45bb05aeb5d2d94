/** UTF-8 text as bytes (RFC 3629): a string's bytes, and the strict reading of bytes as text. */
module Utf8 {
  import opened Prelude
  import opened Text

  function EncodeChar(c: char): (b: seq<byte>)
    ensures 1 <= |b| <= 4
  {
    var code := c as int;
    if code < 0x80 then [code]
    else if code < 0x800 then [0xC0 + code / 64, 0x80 + code % 64]
    else if code < 0x10000 then [0xE0 + code / 4096, 0x80 + code / 64 % 64, 0x80 + code % 64]
    else [0xF0 + code / 262144, 0x80 + code / 4096 % 64, 0x80 + code / 64 % 64, 0x80 + code % 64]
  }

  function Encode(s: string): seq<byte> {
    if s == [] then [] else EncodeChar(s[0]) + Encode(s[1..])
  }

  /** The code point that the leading bytes would stand for, and how many bytes it takes. */
  function Candidate(b: seq<byte>): (int, nat)
    requires b != []
  {
    if b[0] < 0x80 || |b| < 2 then (b[0], 1) else
    var b0: int, b1: int := b[0], b[1];
    if b0 < 0xE0 || |b| < 3 then ((b0 - 0xC0) * 64 + (b1 - 0x80), 2) else
    var b2: int := b[2];
    if b0 < 0xF0 || |b| < 4 then ((b0 - 0xE0) * 4096 + (b1 - 0x80) * 64 + (b2 - 0x80), 3) else
    var b3: int := b[3];
    ((b0 - 0xF0) * 262144 + (b1 - 0x80) * 4096 + (b2 - 0x80) * 64 + (b3 - 0x80), 4)
  }

  predicate IsScalar(code: int) {
    0 <= code < 0xD800 || 0xE000 <= code < 0x110000
  }

  /** None unless the bytes are exactly the encoding of some text. */
  function Decode(b: seq<byte>): Option<string> {
    if b == [] then Some([]) else
    var (code, n) := Candidate(b);
    if n <= |b| && IsScalar(code) && EncodeChar(code as char) == b[..n] then
      match Decode(b[n..])
      case None => None
      case Some(rest) => Some([code as char] + rest)
    else None
  }

  lemma CodeParts(code: nat)
    ensures code == code / 64 * 64 + code % 64
    ensures code / 64 == code / 4096 * 64 + code / 64 % 64
    ensures code / 4096 == code / 262144 * 64 + code / 4096 % 64
  {
    assert code / 64 / 64 == code / 4096;
    assert code / 4096 / 64 == code / 262144;
  }

  lemma CandidateOfChar(c: char, rest: seq<byte>)
    ensures Candidate(EncodeChar(c) + rest) == (c as int, |EncodeChar(c)|)
  {
    CodeParts(c as int);
    var b := EncodeChar(c);
    assert forall i :: 0 <= i < |b| ==> (b + rest)[i] == b[i];
  }

  lemma {:induction false} DecodeEncode(s: string)
    ensures Decode(Encode(s)) == Some(s)
  {
    if s != [] {
      CandidateOfChar(s[0], Encode(s[1..]));
      DecodeEncode(s[1..]);
      var b := Encode(s);
      assert b == EncodeChar(s[0]) + Encode(s[1..]);
      assert b[..|EncodeChar(s[0])|] == EncodeChar(s[0]);
      assert b[|EncodeChar(s[0])|..] == Encode(s[1..]);
      assert s == [s[0]] + s[1..];
    }
  }

  lemma {:induction false} EncodeDecode(b: seq<byte>)
    requires Decode(b).Some?
    ensures Encode(Decode(b).value) == b
    decreases |b|
  {
    if b != [] {
      var (code, n) := Candidate(b);
      EncodeDecode(b[n..]);
      var s := Decode(b).value;
      assert s[1..] == Decode(b[n..]).value;
      assert b == b[..n] + b[n..];
    }
  }

  lemma {:induction false} EncodeAppend(a: string, b: string)
    ensures Encode(a + b) == Encode(a) + Encode(b)
  {
    if a == [] {
      assert a + b == b;
    } else {
      assert (a + b)[1..] == a[1..] + b;
      EncodeAppend(a[1..], b);
    }
  }
}
