/** Transactions: validity, hash pre-image and the lazily cached hash (`core/src/transaction.cpp`). */
module Transactions {
  import opened Bytes
  import opened Results

  /** `sizeof(TransactionData)` on the 64-bit ABI. */
  const TX_STRUCT_SIZE: nat := 96
  const MAX_TRANSACTION_SIZE: nat := 128 * 1024
  const MIN_GAS_LIMIT: nat := 21000

  datatype TransactionData = TransactionData(
    from: Address, to: Address, value: U64, gasLimit: U64, gasPrice: U64, payload: ByteString, nonce: U64)

  predicate IsZeroAddress(a: Address) {
    forall i :: 0 <= i < |a| ==> a[i] == 0
  }

  predicate IsContractCreation(d: TransactionData) {
    IsZeroAddress(d.to) && d.payload != []
  }

  /** `Transaction::is_valid`: addresses, gas and amount; the nonce check always passes. */
  predicate IsValid(d: TransactionData) {
    && !IsZeroAddress(d.from)
    && (!IsZeroAddress(d.to) || IsContractCreation(d))
    && d.gasLimit >= MIN_GAS_LIMIT && d.gasPrice > 0
    && (d.value != 0 || IsContractCreation(d))
  }

  predicate HasNonzeroByte(a: Address) {
    exists i :: 0 <= i < |a| && a[i] != 0
  }

  /**
   Valid means: a sender that is not the zero address, at least 21000 gas, a fee, and a value sent to
   a receiver or, with the zero address for receiver, some payload to create a contract from.
   */
  lemma ValidIff(d: TransactionData)
    ensures IsValid(d) <==>
            && HasNonzeroByte(d.from) && d.gasLimit >= 21000 && d.gasPrice >= 1
            && (if HasNonzeroByte(d.to) then d.value >= 1 else |d.payload| >= 1)
  {
    ZeroOrNot(d.from);
    ZeroOrNot(d.to);
  }

  lemma ZeroOrNot(a: Address)
    ensures HasNonzeroByte(a) <==> !IsZeroAddress(a)
  {
  }

  function Size(d: TransactionData): nat {
    TX_STRUCT_SIZE + |d.payload|
  }

  predicate IsTooLarge(d: TransactionData) {
    Size(d) > MAX_TRANSACTION_SIZE
  }

  /** A payload of 130976 bytes is the largest that fits. */
  lemma TooLargeIff(d: TransactionData)
    ensures IsTooLarge(d) <==> |d.payload| > 130_976
  {
    var fields := Size(d.(payload := []));
    assert fields == 96;
  }

  /** The bytes `calculate_hash` feeds the digest: fixed-width fields first, the payload last. */
  function Preimage(d: TransactionData): ByteString {
    d.from + (d.to + (ToBE(d.value, 8) + (ToBE(d.gasLimit, 8) + (ToBE(d.gasPrice, 8) + (ToBE(d.nonce, 8) + d.payload)))))
  }

  lemma SplitEqual(a: ByteString, b: ByteString, c: ByteString, d: ByteString)
    requires |a| == |b| && a + c == b + d
    ensures a == b && c == d
  {
    assert a == (a + c)[..|a|] && b == (b + d)[..|b|];
    assert c == (a + c)[|a|..] && d == (b + d)[|b|..];
  }

  /** Strips one 8-byte big-endian field from the front of two equal byte strings. */
  lemma SplitField(v: U64, w: U64, a: ByteString, b: ByteString)
    requires ToBE(v, 8) + a == ToBE(w, 8) + b
    ensures v == w && a == b
  {
    SplitEqual(ToBE(v, 8), ToBE(w, 8), a, b);
    Pow256Values();
    ToBEInjective(v, w, 8);
  }

  /** Reads one 8-byte big-endian field that starts at `at`. */
  lemma FieldAt(bytes: ByteString, before: ByteString, v: U64, after: ByteString, at: nat)
    requires bytes == before + (ToBE(v, 8) + after) && |before| == at
    ensures at + 8 <= |bytes| && FromBE(bytes[at..at + 8]) == v
    ensures bytes == (before + ToBE(v, 8)) + after
  {
    hide ToBE, FromBE;
    Pow256Values();
    DecodeEncode(v, 8);
    assert bytes[at..at + 8] == ToBE(v, 8);
  }

  /** Where each field lies in the pre-image: 20-byte addresses, then four 8-byte numbers, then the payload. */
  lemma PreimageLayout(d: TransactionData)
    ensures var bytes := Preimage(d);
            && |bytes| == 72 + |d.payload|
            && bytes[..20] == d.from && bytes[20..40] == d.to
            && FromBE(bytes[40..48]) == d.value && FromBE(bytes[48..56]) == d.gasLimit
            && FromBE(bytes[56..64]) == d.gasPrice && FromBE(bytes[64..72]) == d.nonce
            && bytes[72..] == d.payload
  {
    hide ToBE, FromBE;
    var bytes := Preimage(d);
    var d4 := ToBE(d.nonce, 8) + d.payload;
    var d3 := ToBE(d.gasPrice, 8) + d4;
    var d2 := ToBE(d.gasLimit, 8) + d3;
    var b1 := d.from + d.to;
    assert bytes == b1 + (ToBE(d.value, 8) + d2);
    FieldAt(bytes, b1, d.value, d2, 40);
    var b2 := b1 + ToBE(d.value, 8);
    FieldAt(bytes, b2, d.gasLimit, d3, 48);
    var b3 := b2 + ToBE(d.gasLimit, 8);
    FieldAt(bytes, b3, d.gasPrice, d4, 56);
    var b4 := b3 + ToBE(d.gasPrice, 8);
    FieldAt(bytes, b4, d.nonce, d.payload, 64);
  }

  /** The pre-image determines all seven fields. */
  lemma PreimageInjective(d: TransactionData, e: TransactionData)
    requires Preimage(d) == Preimage(e)
    ensures d == e
  {
    var d4, e4 := ToBE(d.nonce, 8) + d.payload, ToBE(e.nonce, 8) + e.payload;
    var d3, e3 := ToBE(d.gasPrice, 8) + d4, ToBE(e.gasPrice, 8) + e4;
    var d2, e2 := ToBE(d.gasLimit, 8) + d3, ToBE(e.gasLimit, 8) + e3;
    var d1, e1 := ToBE(d.value, 8) + d2, ToBE(e.value, 8) + e2;
    SplitEqual(d.from, e.from, d.to + d1, e.to + e1);
    SplitEqual(d.to, e.to, d1, e1);
    SplitField(d.value, e.value, d2, e2);
    SplitField(d.gasLimit, e.gasLimit, d3, e3);
    SplitField(d.gasPrice, e.gasPrice, d4, e4);
    SplitField(d.nonce, e.nonce, d.payload, e.payload);
  }

  /** `calculate_hash` assembles the pre-image field by field with its shift loops. */
  method BuildPreimage(d: TransactionData) returns (bytes: ByteString)
    ensures bytes == Preimage(d)
  {
    bytes := d.from;
    bytes := bytes + d.to;
    bytes := AppendBE(bytes, d.value, 8);
    bytes := AppendBE(bytes, d.gasLimit, 8);
    bytes := AppendBE(bytes, d.gasPrice, 8);
    bytes := AppendBE(bytes, d.nonce, 8);
    bytes := bytes + d.payload;
  }

  /** A transaction object: its data and the hash cached by the last `CalculateHash`. */
  class Transaction {
    const digest: ByteString -> Hash
    var data: TransactionData
    var cachedHash: Option<Hash>

    /** A cached hash is always the digest of the current fields. */
    ghost predicate Valid()
      reads this
    {
      cachedHash.Some? ==> cachedHash.value == digest(Preimage(data))
    }

    constructor (digest: ByteString -> Hash, data: TransactionData)
      ensures Valid() && this.data == data && this.digest == digest && cachedHash.None?
    {
      this.digest := digest;
      this.data := data;
      cachedHash := None;
    }

    constructor Transfer(digest: ByteString -> Hash, from: Address, to: Address, value: U64)
      ensures Valid() && this.digest == digest && cachedHash.None?
      ensures data == TransactionData(from, to, value, 21000, 1, [], 0)
    {
      this.digest := digest;
      data := TransactionData(from, to, value, 21000, 1, [], 0);
      cachedHash := None;
    }

    method SetFrom(from: Address)
      modifies this
      ensures Valid() && data == old(data).(from := from)
    {
      data := data.(from := from);
      InvalidateCache();
    }

    method SetTo(to: Address)
      modifies this
      ensures Valid() && data == old(data).(to := to)
    {
      data := data.(to := to);
      InvalidateCache();
    }

    method SetValue(value: U64)
      modifies this
      ensures Valid() && data == old(data).(value := value)
    {
      data := data.(value := value);
      InvalidateCache();
    }

    method SetGasLimit(gasLimit: U64)
      modifies this
      ensures Valid() && data == old(data).(gasLimit := gasLimit)
    {
      data := data.(gasLimit := gasLimit);
      InvalidateCache();
    }

    method SetGasPrice(gasPrice: U64)
      modifies this
      ensures Valid() && data == old(data).(gasPrice := gasPrice)
    {
      data := data.(gasPrice := gasPrice);
      InvalidateCache();
    }

    method SetData(payload: ByteString)
      modifies this
      ensures Valid() && data == old(data).(payload := payload)
    {
      data := data.(payload := payload);
      InvalidateCache();
    }

    method SetNonce(nonce: U64)
      modifies this
      ensures Valid() && data == old(data).(nonce := nonce)
    {
      data := data.(nonce := nonce);
      InvalidateCache();
    }

    method InvalidateCache()
      modifies this`cachedHash
      ensures cachedHash.None?
    {
      cachedHash := None;
    }

    /** Whether or not a hash is cached, the answer is the digest of the current fields. */
    method CalculateHash() returns (hash: Hash)
      requires Valid()
      modifies this`cachedHash
      ensures Valid() && hash == digest(Preimage(data)) && cachedHash == Some(hash)
    {
      if cachedHash.Some? {
        return cachedHash.value;
      }
      var bytes := BuildPreimage(data);
      cachedHash := Some(digest(bytes));
      hash := cachedHash.value;
    }
  }
}
