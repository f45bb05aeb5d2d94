/** The XPlus packet obfuscation of Hysteria v1 (src/hysteria.rs). Bytes are bit-vectors here, for their
    exclusive or. */
module XPlus {
  import opened Prelude

  const SALT_LEN: nat := 16

  type Digest = d: seq<bv8> | |d| == 32 witness seq(32, _ => 0)

  /** The packet for a payload: the salt, then the payload masked with the digest of key and salt. */
  function Packet(sha256: seq<bv8> -> Digest, key: seq<bv8>, salt: seq<bv8>, payload: seq<bv8>): seq<bv8>
    requires |salt| == SALT_LEN
  {
    salt + Masked(payload, sha256(key + salt))
  }

  /** The payload of a packet; nothing that is not longer than a salt is one. */
  function Decoded(sha256: seq<bv8> -> Digest, key: seq<bv8>, packet: seq<bv8>): Option<seq<bv8>> {
    if |packet| <= SALT_LEN then None
    else Some(Masked(packet[SALT_LEN..], sha256(key + packet[..SALT_LEN])))
  }

  function Masked(bytes: seq<bv8>, mask: Digest): (r: seq<bv8>)
    ensures |r| == |bytes|
    ensures forall i :: 0 <= i < |bytes| ==> r[i] == bytes[i] ^ mask[i % 32]
  {
    seq(|bytes|, i requires 0 <= i < |bytes| => bytes[i] ^ mask[i % 32])
  }

  lemma XorTwice(a: bv8, b: bv8)
    ensures (a ^ b) ^ b == a
  {
  }

  /** Masking twice with the same digest is the identity. */
  lemma MaskTwice(bytes: seq<bv8>, mask: Digest)
    ensures Masked(Masked(bytes, mask), mask) == bytes
  {
    forall i | 0 <= i < |bytes|
      ensures Masked(Masked(bytes, mask), mask)[i] == bytes[i]
    {
      XorTwice(bytes[i], mask[i % 32]);
    }
  }

  class XPlusSocket {
    const sha256: seq<bv8> -> Digest
    const key: seq<bv8>

    constructor (sha256: seq<bv8> -> Digest, key: seq<bv8>)
      ensures this.sha256 == sha256 && this.key == key
    {
      this.sha256, this.key := sha256, key;
    }

    /** Decodes in place: the payload moves 16 bytes to the front over the salt, the last 16 bytes stay. */
    method DeobfuscatePacket(bytes: array<bv8>) returns (r: Option<nat>)
      modifies bytes
      ensures r == if bytes.Length <= 16 then None else Some(bytes.Length - 16)
      ensures r == None ==> bytes[..] == old(bytes[..])
      ensures r.Some? ==> Decoded(sha256, key, old(bytes[..])) == Some(bytes[..r.value])
      ensures r.Some? ==> bytes[r.value..] == old(bytes[r.value..])
    {
      if bytes.Length <= SALT_LEN {
        return None;
      }
      var mask := sha256(key + bytes[..SALT_LEN]);
      for index := SALT_LEN to bytes.Length
        invariant forall i :: 0 <= i < index - SALT_LEN ==> bytes[i] == old(bytes[i + SALT_LEN]) ^ mask[i % 32]
        invariant forall i :: index - SALT_LEN <= i < bytes.Length ==> bytes[i] == old(bytes[i])
      {
        bytes[index - SALT_LEN] := bytes[index] ^ mask[(index - SALT_LEN) % 32];
      }
      r := Some(bytes.Length - SALT_LEN);
      ghost var packet := old(bytes[..]);
      ghost var masked := Masked(packet[SALT_LEN..], mask);
      assert packet[..SALT_LEN] == old(bytes[..SALT_LEN]);
      assert bytes[..r.value] == masked;
    }

    /** Encodes a payload under the given random salt. */
    method ObfuscatePayload(payload: seq<bv8>, salt: seq<bv8>) returns (out: array<bv8>)
      requires |salt| == SALT_LEN
      ensures fresh(out) && out[..] == Packet(sha256, key, salt, payload)
    {
      out := new bv8[SALT_LEN + |payload|](_ => 0);
      for i := 0 to SALT_LEN
        invariant out[..i] == salt[..i]
      {
        out[i] := salt[i];
      }
      assert out[..SALT_LEN] == salt;
      var mask := sha256(key + out[..SALT_LEN]);
      for index := 0 to |payload|
        invariant out[..SALT_LEN] == salt
        invariant forall i :: 0 <= i < index ==> out[SALT_LEN + i] == payload[i] ^ mask[i % 32]
      {
        out[SALT_LEN + index] := payload[index] ^ mask[index % 32];
      }
      assert out[SALT_LEN..] == Masked(payload, mask);
      assert out[..] == out[..SALT_LEN] + out[SALT_LEN..];
    }
  }

  /** Decoding undoes encoding for every digest, key, salt and payload, except that the packet of an empty
      payload is taken for noise. */
  lemma DecodeUndoesEncode(sha256: seq<bv8> -> Digest, key: seq<bv8>, salt: seq<bv8>, payload: seq<bv8>)
    requires |salt| == SALT_LEN
    ensures Decoded(sha256, key, Packet(sha256, key, salt, payload)) == if payload == [] then None else Some(payload)
  {
    var packet := Packet(sha256, key, salt, payload);
    assert packet[..SALT_LEN] == salt && packet[SALT_LEN..] == Masked(payload, sha256(key + salt));
    MaskTwice(payload, sha256(key + salt));
  }

  /** Byte by byte: the salt in clear, then the payload under the digest of key and salt, used over and over. */
  lemma PacketBytes(sha256: seq<bv8> -> Digest, key: seq<bv8>, salt: seq<bv8>, payload: seq<bv8>, i: nat)
    requires |salt| == 16 && i < |payload|
    ensures var packet := Packet(sha256, key, salt, payload);
      && |packet| == 16 + |payload| && packet[..16] == salt
      && packet[16 + i] == payload[i] ^ sha256(key + salt)[i % 32]
  {
  }
}
