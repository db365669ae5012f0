/** HMAC as the source computes it: a normalized key and two buffers filled in place. */
module Hmac {
  import opened ByteText
  import opened HmacSpec
  import Sha256
  import Base64Url

  method Digest(bytes: Bytes) returns (digest: Bytes)
    ensures digest == SHA256(bytes) && |digest| == DIGEST_BYTES
  {
    digest := Sha256.Digest(bytes);
  }

  lemma BlockKeyOf(key: Bytes, short: Bytes)
    requires short == if |key| > BLOCK_BYTES then SHA256(key) else key
    ensures |short| <= BLOCK_BYTES && BlockKey(SHA256, key) == short + Zeros(BLOCK_BYTES - |short|)
  {
  }

  method NormalizeKey(key: Bytes) returns (normalized: array<Byte>)
    ensures fresh(normalized) && normalized[..] == BlockKey(SHA256, key)
  {
    normalized := new Byte[BLOCK_BYTES](_ => 0);
    if |key| > BLOCK_BYTES {
      var digested := Digest(key);
      BlockKeyOf(key, digested);
      CopyKey(normalized, digested);
    } else {
      BlockKeyOf(key, key);
      CopyKey(normalized, key);
    }
  }

  method CopyKey(normalized: array<Byte>, source: Bytes)
    requires normalized.Length == BLOCK_BYTES && |source| <= BLOCK_BYTES
    requires forall i :: 0 <= i < BLOCK_BYTES ==> normalized[i] == 0
    modifies normalized
    ensures normalized[..] == source + Zeros(BLOCK_BYTES - |source|)
  {
    for index := 0 to |source|
      invariant normalized[..index] == source[..index]
      invariant forall i :: index <= i < BLOCK_BYTES ==> normalized[i] == 0
    {
      normalized[index] := source[index];
    }
  }

  /** A buffer of one masked block followed by `tail` bytes still to be filled. */
  method MaskedBlock(normalized: array<Byte>, mask: Byte -> Byte, tail: nat) returns (buffer: array<Byte>)
    requires normalized.Length == BLOCK_BYTES
    ensures fresh(buffer) && buffer.Length == BLOCK_BYTES + tail
    ensures buffer[..BLOCK_BYTES] == Masked(normalized[..], mask)
  {
    buffer := new Byte[BLOCK_BYTES + tail];
    for index := 0 to BLOCK_BYTES
      invariant forall i :: 0 <= i < index ==> buffer[i] == mask(normalized[i])
    {
      buffer[index] := mask(normalized[index]);
    }
  }

  /** The bytes after the masked block are copied in place. */
  method FillTail(buffer: array<Byte>, tail: Bytes)
    requires buffer.Length == BLOCK_BYTES + |tail|
    modifies buffer
    ensures buffer[..] == old(buffer[..BLOCK_BYTES]) + tail
  {
    for index := 0 to |tail|
      invariant forall i :: 0 <= i < BLOCK_BYTES ==> buffer[i] == old(buffer[i])
      invariant forall i :: 0 <= i < index ==> buffer[BLOCK_BYTES + i] == tail[i]
    {
      buffer[BLOCK_BYTES + index] := tail[index];
    }
  }

  method Sign(key: Bytes, message: Bytes) returns (signature: Bytes)
    ensures signature == HmacSpec.Signature(key, message)
  {
    var normalized := NormalizeKey(key);
    var inner := MaskedBlock(normalized, INNER, |message|);
    var outer := MaskedBlock(normalized, OUTER, DIGEST_BYTES);
    FillTail(inner, message);
    var innerDigest := Digest(inner[..]);
    FillTail(outer, innerDigest);
    var digest := Digest(outer[..]);
    assert digest == HmacOver(SHA256, key, message);
    signature := Base64Url.EncodeLoop(digest);
  }
}
