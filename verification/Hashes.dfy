/** The core module's digest placeholder and pair combination (`core/src/hash.cpp`). */
module Hashes {
  import opened Bytes

  function ZeroHash(): (h: Hash)
    ensures forall i :: 0 <= i < 32 ==> h[i] == 0
  {
    seq(32, _ => 0)
  }

  /** `hash_sha256` as shipped: the first 32 bytes of the data, zero-padded. */
  function PrefixDigest(data: ByteString): Hash {
    if |data| >= 32 then data[..32] else data + seq(32 - |data|, _ => 0)
  }

  /** Byte by byte: the data's, and zeros behind them. */
  lemma PrefixDigestAt(data: ByteString, i: nat)
    requires i < 32
    ensures PrefixDigest(data)[i] == if i < |data| then data[i] else 0
  {
  }

  /** Only the first 32 bytes of the data reach the shipped digest. */
  lemma PrefixDigestForgetsTail(prefix: ByteString, a: ByteString, b: ByteString)
    requires |prefix| >= 32
    ensures PrefixDigest(prefix + a) == PrefixDigest(prefix + b)
  {
    assert (prefix + a)[..32] == prefix[..32];
    assert (prefix + b)[..32] == prefix[..32];
  }

  /** `combine_hashes`: the leading halves of both arguments. */
  function CombineHashes(left: Hash, right: Hash): Hash {
    left[..16] + right[..16]
  }

  /** The byte-by-byte loop of `combine_hashes` fills its zeroed array with the two leading halves. */
  method CombineLoop(left: Hash, right: Hash) returns (combined: Hash)
    ensures combined == CombineHashes(left, right)
  {
    var buffer := new Byte[32](_ => 0);
    for i := 0 to 16
      invariant buffer[..i] == left[..i]
      invariant buffer[16..16 + i] == right[..i]
    {
      buffer[i] := left[i];
      buffer[i + 16] := right[i];
      assert buffer[..i + 1] == buffer[..i] + [left[i]];
      assert buffer[16..16 + i + 1] == buffer[16..16 + i] + [right[i]];
    }
    combined := buffer[..];
    assert combined == buffer[..16] + buffer[16..32];
  }
}
