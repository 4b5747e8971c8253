/** Blocks: header pre-image, derived Merkle root, cached hash and gas validation (`core/src/block.cpp`). */
module Blocks {
  import opened Bytes
  import opened Powers
  import opened Results
  import opened Transactions
  import opened Hashes
  import opened Merkle

  datatype BlockHeader = BlockHeader(
    height: U64, parentHash: Hash, merkleRoot: Hash, timestamp: U64,
    nonce: U64, gasLimit: U64, gasPrice: U64, chainId: U32)

  // ----- Header pre-image -----

  /** The bytes `Block::calculate_hash` feeds the digest. */
  function HeaderPreimage(h: BlockHeader): ByteString {
    ToBE(h.height, 8) + (h.parentHash + (h.merkleRoot + (ToBE(h.timestamp, 8) + (ToBE(h.nonce, 8) +
      (ToBE(h.gasLimit, 8) + (ToBE(h.gasPrice, 8) + ToBE(h.chainId, 4)))))))
  }

  /** The fields behind the three at the front: timestamp, nonce, gas limit, gas price and chain id. */
  function HeaderTail(h: BlockHeader): ByteString {
    ToBE(h.timestamp, 8) + (ToBE(h.nonce, 8) + (ToBE(h.gasLimit, 8) + (ToBE(h.gasPrice, 8) + ToBE(h.chainId, 4))))
  }

  lemma TailLayout(h: BlockHeader)
    ensures var bytes := HeaderTail(h);
            && |bytes| == 36
            && FromBE(bytes[..8]) == h.timestamp && FromBE(bytes[8..16]) == h.nonce
            && FromBE(bytes[16..24]) == h.gasLimit && FromBE(bytes[24..32]) == h.gasPrice
            && FromBE(bytes[32..]) == h.chainId
  {
    hide ToBE, FromBE;
    var bytes, last := HeaderTail(h), ToBE(h.chainId, 4);
    var h3 := ToBE(h.gasPrice, 8) + last;
    var h2 := ToBE(h.gasLimit, 8) + h3;
    FieldAt(bytes, [], h.timestamp, ToBE(h.nonce, 8) + h2, 0);
    assert bytes[0..8] == bytes[..8];
    var b1 := [] + ToBE(h.timestamp, 8);
    FieldAt(bytes, b1, h.nonce, h2, 8);
    var b2 := b1 + ToBE(h.nonce, 8);
    FieldAt(bytes, b2, h.gasLimit, h3, 16);
    var b3 := b2 + ToBE(h.gasLimit, 8);
    FieldAt(bytes, b3, h.gasPrice, last, 24);
    assert bytes[32..] == last;
    Pow256Values();
    DecodeEncode(h.chainId, 4);
  }

  lemma FrontLayout(h: BlockHeader)
    ensures var bytes := HeaderPreimage(h);
            && |bytes| == 108 && FromBE(bytes[..8]) == h.height
            && bytes[8..40] == h.parentHash && bytes[40..72] == h.merkleRoot && bytes[72..] == HeaderTail(h)
  {
    hide ToBE, FromBE;
    assert HeaderPreimage(h) == ToBE(h.height, 8) + (h.parentHash + (h.merkleRoot + HeaderTail(h)));
    assert |HeaderTail(h)| == 36;
    hide HeaderPreimage, HeaderTail;
    FourParts(ToBE(h.height, 8), h.parentHash, h.merkleRoot, HeaderTail(h));
    Pow256Values();
    DecodeEncode(h.height, 8);
  }

  lemma FourParts(a: ByteString, b: Hash, c: Hash, d: ByteString)
    requires |a| == 8
    ensures var bytes := a + (b + (c + d));
            |bytes| == 72 + |d| && bytes[..8] == a && bytes[8..40] == b && bytes[40..72] == c && bytes[72..] == d
  {
  }

  /** Where each field lies in the 108 bytes of the pre-image. */
  lemma HeaderLayout(h: BlockHeader)
    ensures var bytes := HeaderPreimage(h);
            && |bytes| == 108
            && FromBE(bytes[..8]) == h.height
            && bytes[8..40] == h.parentHash && bytes[40..72] == h.merkleRoot
            && FromBE(bytes[72..80]) == h.timestamp && FromBE(bytes[80..88]) == h.nonce
            && FromBE(bytes[88..96]) == h.gasLimit && FromBE(bytes[96..104]) == h.gasPrice
            && FromBE(bytes[104..]) == h.chainId
  {
    hide ToBE, FromBE, HeaderPreimage, HeaderTail;
    FrontLayout(h);
    TailLayout(h);
    var bytes, tail := HeaderPreimage(h), HeaderTail(h);
    assert bytes[72..80] == tail[..8] && bytes[80..88] == tail[8..16];
    assert bytes[88..96] == tail[16..24] && bytes[96..104] == tail[24..32] && bytes[104..] == tail[32..];
  }

  /** The shipped hash of a block: its height and the first 24 bytes of its parent's hash. */
  lemma ShippedBlockHash(h: BlockHeader)
    ensures PrefixDigest(HeaderPreimage(h)) == ToBE(h.height, 8) + h.parentHash[..24]
  {
    hide ToBE, FromBE;
    HeaderLayout(h);
    var bytes := HeaderPreimage(h);
    EncodeDecode(bytes[..8]);
    assert bytes[..32] == bytes[..8] + bytes[8..40][..24];
  }

  /** The pre-image determines all eight header fields. */
  lemma HeaderPreimageInjective(g: BlockHeader, h: BlockHeader)
    requires HeaderPreimage(g) == HeaderPreimage(h)
    ensures g == h
  {
    var g6, h6 := ToBE(g.gasPrice, 8) + ToBE(g.chainId, 4), ToBE(h.gasPrice, 8) + ToBE(h.chainId, 4);
    var g5, h5 := ToBE(g.gasLimit, 8) + g6, ToBE(h.gasLimit, 8) + h6;
    var g4, h4 := ToBE(g.nonce, 8) + g5, ToBE(h.nonce, 8) + h5;
    var g3, h3 := ToBE(g.timestamp, 8) + g4, ToBE(h.timestamp, 8) + h4;
    SplitField(g.height, h.height, g.parentHash + (g.merkleRoot + g3), h.parentHash + (h.merkleRoot + h3));
    SplitEqual(g.parentHash, h.parentHash, g.merkleRoot + g3, h.merkleRoot + h3);
    SplitEqual(g.merkleRoot, h.merkleRoot, g3, h3);
    SplitField(g.timestamp, h.timestamp, g4, h4);
    SplitField(g.nonce, h.nonce, g5, h5);
    SplitField(g.gasLimit, h.gasLimit, g6, h6);
    SplitField(g.gasPrice, h.gasPrice, ToBE(g.chainId, 4), ToBE(h.chainId, 4));
    Pow256Values();
    ToBEInjective(g.chainId, h.chainId, 4);
  }

  method BuildHeaderPreimage(h: BlockHeader) returns (bytes: ByteString)
    ensures bytes == HeaderPreimage(h)
    ensures |bytes| == 108 && bytes[8..40] == h.parentHash && bytes[40..72] == h.merkleRoot
  {
    hide ToBE, FromBE;
    ghost var tail := ToBE(h.nonce, 8) + (ToBE(h.gasLimit, 8) + (ToBE(h.gasPrice, 8) + ToBE(h.chainId, 4)));
    bytes := AppendBE([], h.height, 8);
    bytes := bytes + h.parentHash;
    bytes := bytes + h.merkleRoot;
    bytes := AppendBE(bytes, h.timestamp, 8);
    assert bytes + tail == HeaderPreimage(h);
    bytes := AppendBE(bytes, h.nonce, 8);
    bytes := AppendBE(bytes, h.gasLimit, 8);
    assert bytes + (ToBE(h.gasPrice, 8) + ToBE(h.chainId, 4)) == HeaderPreimage(h);
    bytes := AppendBE(bytes, h.gasPrice, 8);
    bytes := AppendBE(bytes, h.chainId, 4);
    assert bytes == HeaderPreimage(h);
    hide HeaderPreimage;
    HeaderLayout(h);
  }

  // ----- Block state and its operations -----

  type Digest = ByteString -> Hash

  datatype BlockState = BlockState(header: BlockHeader, transactions: seq<TransactionData>, cachedHash: Option<Hash>)

  function TxHashes(txs: seq<TransactionData>, digest: Digest): (hs: seq<Hash>)
    ensures |hs| == |txs|
  {
    if txs == [] then [] else TxHashes(txs[..|txs| - 1], digest) + [digest(Preimage(txs[|txs| - 1]))]
  }

  /** One hash per transaction, in their order. */
  lemma {:induction false} TxHashAt(txs: seq<TransactionData>, digest: Digest, i: nat)
    requires i < |txs|
    ensures TxHashes(txs, digest)[i] == digest(Preimage(txs[i]))
  {
    if i < |txs| - 1 {
      TxHashAt(txs[..|txs| - 1], digest, i);
    }
  }

  /** The Merkle tree over the hashes of the transactions. */
  function TxRoot(txs: seq<TransactionData>, digest: Digest): Hash {
    Root(TxHashes(txs, digest), ZeroHash(), CombineHashes)
  }

  /** The root of a block of one transaction is its hash; of more, the leading halves of two of the hashes. */
  lemma BlockRoot(txs: seq<TransactionData>, digest: Digest)
    requires txs != []
    ensures |txs| == 1 ==> TxRoot(txs, digest) == digest(Preimage(txs[0]))
    ensures |txs| > 1 ==>
              var k := Pow(2, CeilLog2(|txs|) - 1);
              k < |txs| && TxRoot(txs, digest) == digest(Preimage(txs[0]))[..16] + digest(Preimage(txs[k]))[..16]
  {
    hide TxHashes, Root;
    TxHashAt(txs, digest, 0);
    if |txs| == 1 {
      RootOfFew(TxHashes(txs, digest), ZeroHash(), CombineHashes);
    } else {
      ShippedRoot(TxHashes(txs, digest), ZeroHash());
      TxHashAt(txs, digest, Pow(2, CeilLog2(|txs|) - 1));
    }
  }

  datatype BlockOp =
    | HeightOp(height: U64)
    | ParentHashOp(parentHash: Hash)
    | TimestampOp(timestamp: U64)
    | NonceOp(nonce: U64)
    | GasLimitOp(gasLimit: U64)
    | GasPriceOp(gasPrice: U64)
    | ChainIdOp(chainId: U32)
    | AddOp(tx: TransactionData)
    | RemoveOp(index: nat)
    | ClearOp
    | HashOp

  function NewBlock(height: U64, parentHash: Hash, timestamp: U64): BlockState {
    BlockState(BlockHeader(height, parentHash, ZeroHash(), timestamp, 0, 8000000, 1, 1), [], None)
  }

  function BlockFromParts(header: BlockHeader, txs: seq<TransactionData>, digest: Digest): BlockState {
    BlockState(header.(merkleRoot := TxRoot(txs, digest)), txs, None)
  }

  /** One public call. A transaction edit recomputes the root and drops the cached hash; the gas limit,
      gas price and chain id setters leave the cached hash in place. */
  function Apply(b: BlockState, op: BlockOp, digest: Digest): BlockState {
    match op
    case HeightOp(x) => b.(header := b.header.(height := x), cachedHash := None)
    case ParentHashOp(x) => b.(header := b.header.(parentHash := x), cachedHash := None)
    case TimestampOp(x) => b.(header := b.header.(timestamp := x), cachedHash := None)
    case NonceOp(x) => b.(header := b.header.(nonce := x), cachedHash := None)
    case GasLimitOp(x) => b.(header := b.header.(gasLimit := x))
    case GasPriceOp(x) => b.(header := b.header.(gasPrice := x))
    case ChainIdOp(x) => b.(header := b.header.(chainId := x))
    case AddOp(tx) => BlockFromParts(b.header, b.transactions + [tx], digest)
    case RemoveOp(i) =>
      if i < |b.transactions| then
        BlockFromParts(b.header, b.transactions[..i] + b.transactions[i + 1..], digest)
      else b
    case ClearOp => b.(header := b.header.(merkleRoot := ZeroHash()), transactions := [], cachedHash := None)
    case HashOp =>
      if b.cachedHash.Some? then b else b.(cachedHash := Some(digest(HeaderPreimage(b.header))))
  }

  function Run(b: BlockState, ops: seq<BlockOp>, digest: Digest): BlockState {
    if ops == [] then b else Apply(Run(b, ops[..|ops| - 1], digest), ops[|ops| - 1], digest)
  }

  // ----- Theorems over runs -----

  predicate RootIsCurrent(b: BlockState, digest: Digest) {
    b.header.merkleRoot == TxRoot(b.transactions, digest)
  }

  predicate CacheIsFresh(b: BlockState, digest: Digest) {
    b.cachedHash.Some? ==> b.cachedHash.value == digest(HeaderPreimage(b.header))
  }

  /** Through every run of setters and edits, the header's root is the tree of the current transactions. */
  lemma {:induction false} RootStaysCurrent(b: BlockState, ops: seq<BlockOp>, digest: Digest)
    requires RootIsCurrent(b, digest)
    ensures RootIsCurrent(Run(b, ops, digest), digest)
  {
    hide Apply, RootIsCurrent;
    if ops != [] {
      RootStaysCurrent(b, ops[..|ops| - 1], digest);
      StepKeepsRoot(Run(b, ops[..|ops| - 1], digest), ops[|ops| - 1], digest);
    }
  }

  lemma RootOfNone(digest: Digest)
    ensures TxRoot([], digest) == ZeroHash()
  {
    assert TxHashes([], digest) == [];
  }

  lemma StepKeepsRoot(b: BlockState, op: BlockOp, digest: Digest)
    requires RootIsCurrent(b, digest)
    ensures RootIsCurrent(Apply(b, op, digest), digest)
  {
    hide TxRoot;
    RootOfNone(digest);
  }

  /** Both constructors start from a current root; a new block is a block built from no transactions. */
  lemma ConstructorsAgree(height: U64, parentHash: Hash, timestamp: U64, digest: Digest)
    ensures NewBlock(height, parentHash, timestamp)
         == BlockFromParts(NewBlock(height, parentHash, timestamp).header, [], digest)
    ensures RootIsCurrent(NewBlock(height, parentHash, timestamp), digest)
  {
    RootOfNone(digest);
  }

  /** The digest cannot see the three fields whose setters keep the cache. */
  ghost predicate IgnoresGasFields(digest: Digest) {
    forall h: BlockHeader, txs, gasLimit: U64, gasPrice: U64, chainId: U32 ::
      SameWithout(BlockFromParts(h, txs, digest).header, gasLimit, gasPrice, chainId, digest)
  }

  predicate SameWithout(h: BlockHeader, gasLimit: U64, gasPrice: U64, chainId: U32, digest: Digest) {
    digest(HeaderPreimage(h.(gasLimit := gasLimit, gasPrice := gasPrice, chainId := chainId))) == digest(HeaderPreimage(h))
  }

  ghost predicate CacheAlwaysFresh(digest: Digest) {
    forall h: BlockHeader, txs, ops :: CacheIsFresh(Run(BlockFromParts(h, txs, digest), ops, digest), digest)
  }

  lemma {:induction false} CacheStaysFresh(b: BlockState, ops: seq<BlockOp>, digest: Digest)
    requires IgnoresGasFields(digest)
    requires RootIsCurrent(b, digest) && CacheIsFresh(b, digest)
    ensures CacheIsFresh(Run(b, ops, digest), digest)
  {
    hide TxRoot, HeaderPreimage;
    if ops != [] {
      var before := Run(b, ops[..|ops| - 1], digest);
      CacheStaysFresh(b, ops[..|ops| - 1], digest);
      RootStaysCurrent(b, ops[..|ops| - 1], digest);
      var h := before.header;
      var after := Apply(before, ops[|ops| - 1], digest).header;
      assert BlockFromParts(h, before.transactions, digest).header == h;
      assert SameWithout(h, after.gasLimit, after.gasPrice, after.chainId, digest);
    }
  }

  function HashedThenChanged(b: BlockState, g: U64, p: U64, c: U32, digest: Digest): BlockState {
    b.(header := b.header.(gasLimit := g, gasPrice := p, chainId := c), cachedHash := Some(digest(HeaderPreimage(b.header))))
  }

  /** One header, hashed, then given other gas fields: the cached hash is the one of the old fields. */
  lemma CacheAfterGasSetters(h: BlockHeader, txs: seq<TransactionData>, g: U64, p: U64, c: U32, digest: Digest)
    ensures Run(BlockFromParts(h, txs, digest), [HashOp, GasLimitOp(g), GasPriceOp(p), ChainIdOp(c)], digest)
         == HashedThenChanged(BlockFromParts(h, txs, digest), g, p, c, digest)
  {
    var b := BlockFromParts(h, txs, digest);
    var ops := [HashOp, GasLimitOp(g), GasPriceOp(p), ChainIdOp(c)];
    assert ops[..3][..2] == [HashOp, GasLimitOp(g)];
    assert ops[..3] == [HashOp, GasLimitOp(g), GasPriceOp(p)];
    assert ops[..3][..2][..1] == [HashOp];
    assert Run(b, [HashOp], digest) == Apply(b, HashOp, digest) by {
      assert [HashOp][..0] == [];
    }
    assert Run(b, ops[..3][..2], digest) == Apply(Run(b, [HashOp], digest), GasLimitOp(g), digest);
  }

  /**
   Three setters skip invalidation, so the cached hash need not be the hash of the current header.
   It always is, over every run, exactly when the digest does not depend on those three fields.
   */
  lemma CacheFreshIffGasFieldsIgnored(digest: Digest)
    ensures CacheAlwaysFresh(digest) <==> IgnoresGasFields(digest)
  {
    if IgnoresGasFields(digest) {
      forall h: BlockHeader, txs, ops
        ensures CacheIsFresh(Run(BlockFromParts(h, txs, digest), ops, digest), digest)
      {
        CacheStaysFresh(BlockFromParts(h, txs, digest), ops, digest);
      }
    }
    if CacheAlwaysFresh(digest) {
      forall h: BlockHeader, txs, g: U64, p: U64, c: U32
        ensures SameWithout(BlockFromParts(h, txs, digest).header, g, p, c, digest)
      {
        var ops := [HashOp, GasLimitOp(g), GasPriceOp(p), ChainIdOp(c)];
        CacheAfterGasSetters(h, txs, g, p, c, digest);
        assert CacheIsFresh(Run(BlockFromParts(h, txs, digest), ops, digest), digest);
      }
    }
  }

  /** The shipped digest stops inside the parent hash, so its cached block hash is always fresh. */
  lemma ShippedCacheFresh()
    ensures CacheAlwaysFresh(PrefixDigest)
  {
    forall h: BlockHeader, txs, g: U64, p: U64, c: U32
      ensures SameWithout(BlockFromParts(h, txs, PrefixDigest).header, g, p, c, PrefixDigest)
    {
      ShippedIgnoresGas(BlockFromParts(h, txs, PrefixDigest).header, g, p, c);
    }
    CacheFreshIffGasFieldsIgnored(PrefixDigest);
  }

  lemma ShippedIgnoresGas(h: BlockHeader, g: U64, p: U64, c: U32)
    ensures SameWithout(h, g, p, c, PrefixDigest)
  {
    var h' := h.(gasLimit := g, gasPrice := p, chainId := c);
    var prefix := ToBE(h.height, 8) + h.parentHash;
    var a, b := HeaderPreimage(h)[40..], HeaderPreimage(h')[40..];
    assert HeaderPreimage(h) == prefix + a && HeaderPreimage(h') == prefix + b;
    PrefixDigestForgetsTail(prefix, a, b);
  }

  /** The last 32 bytes of the data, zero-padded: a digest that does see those fields. */
  function SuffixDigest(data: ByteString): Hash {
    if |data| >= 32 then data[|data| - 32..] else data + seq(32 - |data|, _ => 0)
  }

  /** Under such a digest the cache goes stale: the same block, hashed and given another chain id. */
  lemma SuffixDigestGoesStale()
    ensures !CacheAlwaysFresh(SuffixDigest)
  {
    hide SameWithout, TxRoot, CacheAlwaysFresh;
    var h := NewBlock(0, ZeroHash(), 0).header;
    var h' := BlockFromParts(h, [], SuffixDigest).header;
    SuffixDistinguishes(h');
    assert !SameWithout(BlockFromParts(h, [], SuffixDigest).header, h'.gasLimit, h'.gasPrice, 0, SuffixDigest);
    CacheFreshIffGasFieldsIgnored(SuffixDigest);
  }

  lemma SuffixDistinguishes(h: BlockHeader)
    requires h.chainId == 1
    ensures !SameWithout(h, h.gasLimit, h.gasPrice, 0, SuffixDigest)
  {
    hide HeaderPreimage, SuffixDigest;
    SuffixSeesChainId(h);
    SuffixSeesChainId(h.(gasLimit := h.gasLimit, gasPrice := h.gasPrice, chainId := 0));
    assert ToBE(0, 4)[3] == 0 && ToBE(1, 4)[3] == 1;
  }

  lemma SuffixSeesChainId(h: BlockHeader)
    ensures SuffixDigest(HeaderPreimage(h))[28..] == ToBE(h.chainId, 4)
  {
    var bytes := HeaderPreimage(h);
    assert |bytes| == 108 && bytes[104..] == ToBE(h.chainId, 4);
  }

  // ----- Gas validation -----

  function TotalGas(txs: seq<TransactionData>): nat {
    if txs == [] then 0 else TotalGas(txs[..|txs| - 1]) + txs[|txs| - 1].gasLimit
  }

  /** `validate_gas_limits`: every running total, reduced modulo 2^64, stays within the limit. */
  predicate GasFits(txs: seq<TransactionData>, limit: U64) {
    txs == [] || (GasFits(txs[..|txs| - 1], limit) && Wrap64(TotalGas(txs)) <= limit)
  }

  predicate AllValid(txs: seq<TransactionData>) {
    forall i :: 0 <= i < |txs| ==> IsValid(txs[i])
  }

  /** The gas of a list is the sum over its parts, down to the gas limit of each transaction. */
  lemma {:induction false} TotalGasSplits(a: seq<TransactionData>, b: seq<TransactionData>, tx: TransactionData)
    ensures TotalGas([]) == 0 && TotalGas([tx]) == tx.gasLimit
    ensures TotalGas(a + b) == TotalGas(a) + TotalGas(b)
  {
    assert [tx][..0] == [];
    if b == [] {
      assert a + b == a;
    } else {
      TotalGasSplits(a, b[..|b| - 1], tx);
      assert (a + b)[..|a + b| - 1] == a + b[..|b| - 1];
    }
  }

  /** The check passes exactly when every running total, reduced modulo 2^64, is within the limit. */
  lemma {:induction false} GasFitsIff(txs: seq<TransactionData>, limit: U64)
    ensures GasFits(txs, limit) <==>
            forall k :: 0 < k <= |txs| ==> TotalGas(txs[..k]) % 0x1_0000_0000_0000_0000 <= limit
  {
    if txs != [] {
      var init := txs[..|txs| - 1];
      GasFitsIff(init, limit);
      assert txs[..|txs|] == txs;
      assert forall k :: 0 < k <= |init| ==> init[..k] == txs[..k];
    }
  }

  lemma {:induction false} GasFitsPrefix(txs: seq<TransactionData>, k: nat, limit: U64)
    requires k <= |txs| && GasFits(txs, limit)
    ensures GasFits(txs[..k], limit)
  {
    if k < |txs| {
      GasFitsPrefix(txs[..|txs| - 1], k, limit);
      assert txs[..|txs| - 1][..k] == txs[..k];
    } else {
      assert txs[..k] == txs;
    }
  }

  /**
   Running totals wrap at 2^64, so passing the check does not bound the exact sum. The exact sum is
   within the limit if and only if the check passes and that sum is below 2^64.
   */
  lemma {:induction false} GasFitsExact(txs: seq<TransactionData>, limit: U64)
    ensures TotalGas(txs) <= limit <==> GasFits(txs, limit) && TotalGas(txs) < TWO64
  {
    if txs != [] {
      GasFitsExact(txs[..|txs| - 1], limit);
    }
  }

  /** Two transactions of 2^63 gas each pass under a limit of 2^63. */
  lemma WrappedGasPasses(tx: TransactionData)
    requires tx.gasLimit == 0x8000_0000_0000_0000
    ensures GasFits([tx, tx], 0x8000_0000_0000_0000) && TotalGas([tx, tx]) > 0x8000_0000_0000_0000
  {
    assert [tx, tx][..1] == [tx] && [tx][..0] == [];
    assert TotalGas([tx]) == 0x8000_0000_0000_0000;
    assert GasFits([tx], 0x8000_0000_0000_0000);
  }

  lemma NoGas(txs: seq<TransactionData>, limit: U64)
    ensures TotalGas(txs[..0]) == 0 && GasFits(txs[..0], limit)
  {
  }

  lemma GasStep(txs: seq<TransactionData>, i: nat, limit: U64)
    requires i < |txs|
    ensures TotalGas(txs[..i + 1]) == TotalGas(txs[..i]) + txs[i].gasLimit
    ensures GasFits(txs[..i + 1], limit) <==> GasFits(txs[..i], limit) && Wrap64(TotalGas(txs[..i + 1])) <= limit
  {
    assert txs[..i + 1][..i] == txs[..i];
  }

  lemma ModAdd(a: nat, b: nat)
    ensures Wrap64(Wrap64(a) + b) == Wrap64(a + b)
  {
  }

  // ----- The block object -----

  class Block {
    const digest: Digest
    var header: BlockHeader
    var transactions: seq<TransactionData>
    var cachedHash: Option<Hash>

    function State(): BlockState
      reads this
    {
      BlockState(header, transactions, cachedHash)
    }

    constructor (digest: Digest, height: U64, parentHash: Hash, timestamp: U64)
      ensures this.digest == digest && State() == NewBlock(height, parentHash, timestamp)
      ensures header == BlockHeader(height, parentHash, ZeroHash(), timestamp, 0, 8_000_000, 1, 1)
      ensures transactions == [] && cachedHash.None?
    {
      this.digest := digest;
      header := BlockHeader(height, parentHash, ZeroHash(), timestamp, 0, 8000000, 1, 1);
      transactions := [];
      cachedHash := None;
    }

    constructor FromParts(digest: Digest, header: BlockHeader, txs: seq<TransactionData>)
      ensures this.digest == digest && State() == BlockFromParts(header, txs, digest)
      ensures this.header == header.(merkleRoot := TxRoot(txs, digest)) && transactions == txs && cachedHash.None?
    {
      this.digest := digest;
      this.header := header;
      transactions := txs;
      cachedHash := None;
      new;
      UpdateMerkleRoot();
    }

    method SetHeight(height: U64)
      modifies this
      ensures State() == Apply(old(State()), HeightOp(height), digest)
      ensures header == old(header).(height := height) && transactions == old(transactions) && cachedHash.None?
    {
      header := header.(height := height);
      InvalidateCache();
    }

    method SetParentHash(parentHash: Hash)
      modifies this
      ensures State() == Apply(old(State()), ParentHashOp(parentHash), digest)
      ensures header == old(header).(parentHash := parentHash) && transactions == old(transactions) && cachedHash.None?
    {
      header := header.(parentHash := parentHash);
      InvalidateCache();
    }

    method SetTimestamp(timestamp: U64)
      modifies this
      ensures State() == Apply(old(State()), TimestampOp(timestamp), digest)
      ensures header == old(header).(timestamp := timestamp) && transactions == old(transactions) && cachedHash.None?
    {
      header := header.(timestamp := timestamp);
      InvalidateCache();
    }

    method SetNonce(nonce: U64)
      modifies this
      ensures State() == Apply(old(State()), NonceOp(nonce), digest)
      ensures header == old(header).(nonce := nonce) && transactions == old(transactions) && cachedHash.None?
    {
      header := header.(nonce := nonce);
      InvalidateCache();
    }

    method SetGasLimit(gasLimit: U64)
      modifies this
      ensures State() == Apply(old(State()), GasLimitOp(gasLimit), digest)
      ensures header == old(header).(gasLimit := gasLimit) && transactions == old(transactions) && cachedHash == old(cachedHash)
    {
      header := header.(gasLimit := gasLimit);
    }

    method SetGasPrice(gasPrice: U64)
      modifies this
      ensures State() == Apply(old(State()), GasPriceOp(gasPrice), digest)
      ensures header == old(header).(gasPrice := gasPrice) && transactions == old(transactions) && cachedHash == old(cachedHash)
    {
      header := header.(gasPrice := gasPrice);
    }

    method SetChainId(chainId: U32)
      modifies this
      ensures State() == Apply(old(State()), ChainIdOp(chainId), digest)
      ensures header == old(header).(chainId := chainId) && transactions == old(transactions) && cachedHash == old(cachedHash)
    {
      header := header.(chainId := chainId);
    }

    method AddTransaction(tx: TransactionData)
      modifies this
      ensures State() == Apply(old(State()), AddOp(tx), digest)
      ensures transactions == old(transactions) + [tx] && cachedHash.None?
      ensures header == old(header).(merkleRoot := TxRoot(transactions, digest))
    {
      transactions := transactions + [tx];
      UpdateMerkleRoot();
      InvalidateCache();
    }

    method RemoveTransaction(index: nat)
      modifies this
      ensures State() == Apply(old(State()), RemoveOp(index), digest)
      ensures index >= |old(transactions)| ==> State() == old(State())
      ensures index < |old(transactions)| ==>
                && transactions == old(transactions)[..index] + old(transactions)[index + 1..] && cachedHash.None?
                && header == old(header).(merkleRoot := TxRoot(transactions, digest))
    {
      if index < |transactions| {
        transactions := transactions[..index] + transactions[index + 1..];
        UpdateMerkleRoot();
        InvalidateCache();
      }
    }

    method ClearTransactions()
      modifies this
      ensures State() == Apply(old(State()), ClearOp, digest)
      ensures transactions == [] && cachedHash.None? && header == old(header).(merkleRoot := ZeroHash())
    {
      transactions := [];
      header := header.(merkleRoot := ZeroHash());
      InvalidateCache();
    }

    method CalculateHash() returns (hash: Hash)
      modifies this`cachedHash
      ensures State() == Apply(old(State()), HashOp, digest)
      ensures cachedHash == Some(hash)
      ensures hash == if old(cachedHash).Some? then old(cachedHash).value else digest(HeaderPreimage(header))
    {
      if cachedHash.Some? {
        return cachedHash.value;
      }
      var bytes := BuildHeaderPreimage(header);
      cachedHash := Some(digest(bytes));
      hash := cachedHash.value;
    }

    method CalculateMerkleRoot() returns (root: Hash)
      ensures root == TxRoot(transactions, digest)
    {
      var hashes: seq<Hash> := [];
      for i := 0 to |transactions|
        invariant hashes == TxHashes(transactions[..i], digest)
      {
        assert transactions[..i + 1][..i] == transactions[..i];
        hashes := hashes + [digest(Preimage(transactions[i]))];
      }
      assert transactions[..|transactions|] == transactions;
      ghost var levels, pairings;
      root, levels, pairings := MerkleLoop(hashes, ZeroHash(), CombineHashes);
    }

    method UpdateMerkleRoot()
      modifies this`header
      ensures header == old(header).(merkleRoot := TxRoot(transactions, digest))
    {
      var root := CalculateMerkleRoot();
      header := header.(merkleRoot := root);
    }

    method InvalidateCache()
      modifies this`cachedHash
      ensures cachedHash.None?
    {
      cachedHash := None;
    }

    method ValidateGasLimits() returns (ok: bool)
      ensures ok == GasFits(transactions, header.gasLimit)
    {
      var total: U64 := 0;
      NoGas(transactions, header.gasLimit);
      hide TotalGas, GasFits;
      for i := 0 to |transactions|
        invariant total == Wrap64(TotalGas(transactions[..i]))
        invariant GasFits(transactions[..i], header.gasLimit)
      {
        GasStep(transactions, i, header.gasLimit);
        ModAdd(TotalGas(transactions[..i]), transactions[i].gasLimit);
        total := Wrap64(total + transactions[i].gasLimit);
        if total > header.gasLimit {
          if GasFits(transactions, header.gasLimit) {
            GasFitsPrefix(transactions, i + 1, header.gasLimit);
          }
          return false;
        }
      }
      assert transactions[..|transactions|] == transactions;
      ok := true;
    }

    method ValidateTransactions() returns (ok: bool)
      ensures ok == ((forall i :: 0 <= i < |transactions| ==> IsValid(transactions[i])) && GasFits(transactions, header.gasLimit))
    {
      for i := 0 to |transactions|
        invariant AllValid(transactions[..i])
      {
        if !IsValid(transactions[i]) {
          return false;
        }
        assert transactions[..i + 1] == transactions[..i] + [transactions[i]];
      }
      assert transactions[..|transactions|] == transactions;
      ok := ValidateGasLimits();
    }
  }
}
