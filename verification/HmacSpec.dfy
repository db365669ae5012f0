/**
 HMAC over SHA-256 as section 2 of RFC 2104 defines it, rendered in base64url.
 */
module HmacSpec {
  import opened ByteText
  import Sha256Spec
  import Base64Url

  const BLOCK_BYTES: nat := 64
  const DIGEST_BYTES: nat := 32
  const INNER: Byte -> Byte := b => b ^ 0x36
  const OUTER: Byte -> Byte := b => b ^ 0x5c

  /** The key, hashed when longer than a block, then extended with zeros to a block. */
  function BlockKey(hash: Bytes -> Bytes, key: Bytes): (k: Bytes)
    requires forall m :: |hash(m)| == DIGEST_BYTES
    ensures |k| == BLOCK_BYTES
  {
    var short := if |key| > BLOCK_BYTES then hash(key) else key;
    short + Zeros(BLOCK_BYTES - |short|)
  }

  function Masked(k: Bytes, mask: Byte -> Byte): (m: Bytes)
    ensures |m| == |k| && forall i :: 0 <= i < |k| ==> m[i] == mask(k[i])
  {
    if k == [] then [] else Masked(k[..|k| - 1], mask) + [mask(k[|k| - 1])]
  }

  function HmacOver(hash: Bytes -> Bytes, key: Bytes, message: Bytes): Bytes
    requires forall m :: |hash(m)| == DIGEST_BYTES
  {
    var k := BlockKey(hash, key);
    hash(Masked(k, OUTER) + hash(Masked(k, INNER) + message))
  }

  /** The two pads of section 2 of RFC 2104. */
  lemma PadsAre(b: Byte)
    ensures INNER(b) ^ b == 0x36 && OUTER(b) ^ b == 0x5c
  {
  }

  const SHA256: Bytes -> Bytes := m => Sha256Spec.DigestFor(m)

  /** `hmac_sha256_base64url` */
  function Signature(key: Bytes, message: Bytes): Bytes {
    Base64Url.Encode(HmacOver(SHA256, key, message))
  }

  /** A key and the same key extended with zero bytes inside one block sign alike. */
  lemma ZeroExtendedKeys(hash: Bytes -> Bytes, key: Bytes, zeros: nat, message: Bytes)
    requires forall m :: |hash(m)| == DIGEST_BYTES
    requires |key| + zeros <= BLOCK_BYTES
    ensures HmacOver(hash, key + Zeros(zeros), message) == HmacOver(hash, key, message)
  {
    ZerosTogether(key, zeros, BLOCK_BYTES - |key| - zeros);
  }

  lemma ZerosTogether(key: Bytes, a: nat, b: nat)
    ensures key + Zeros(a) + Zeros(b) == key + Zeros(a + b)
  {
  }

  /** A signature is 43 characters of the base64url alphabet, so it holds no dot and no zero byte. */
  lemma SignatureShape(key: Bytes, message: Bytes)
    ensures |Signature(key, message)| == 43
    ensures Base64Url.AllInAlphabet(Signature(key, message)) && Avoids(Signature(key, message), DOT)
            && Avoids(Signature(key, message), 0)
  {
    var digest := HmacOver(SHA256, key, message);
    assert |digest| == 32;
    Base64Url.EncodeLength(digest);
    Base64Url.EncodeInAlphabet(digest);
  }
}
