# ChainForge: a verified model

This project models the stateful cores of ChainForge in Dafny and proves what they keep over every run.

- **Mempool.** Three redundant structures (`transactions_`, `account_nonces_`, `priority_queue_`) under adding,
  removing, replace-by-fee, two evictions, clearing and reconfiguration. `MempoolSpec` says what each call does to
  the three structures; `MempoolImpl.Mempool` is the object with its loops, proved equal to it; `MempoolInvariants`,
  `MempoolRuns`, `MempoolBounds`, `MempoolSelection`, `MempoolStale` and `MempoolDangling` prove what holds over all runs;
  `MempoolOutcomes` says what each call does with counts, bytes, fees and ages written out;
  `MempoolExamples` holds concrete runs in which a property fails without its condition.
- **Merkle trees and blocks.** One top-down tree definition, generic in the pair function; the two level-by-level
  loops equal it. Blocks keep a derived root and a lazily cached hash.
- **Peer exchange.** A binary printer, a total parser over arbitrary bytes, and the bounded peer table they feed.
- **Circuit breaker, rate limiter, retries.** Timed state machines with guarantees over whole histories.
- **Hash pre-images, amounts, difficulty, storage.** Big-endian encodings, decimal printing and parsing, the
  proof-of-work test, the write batch and the sorted iterator.

Conventions. Each public method is one atomic step; the clock is an argument (`t0`, `t1`, `now`). Unsigned 64-bit
and 32-bit wrap-around is written out wherever the code can reach it. Digests and the transaction hash are
parameters; the shipped placeholder digest is `Hashes.PrefixDigest`. Iteration over an unordered map is a loop that
picks keys in any order. A priority queue is the sequence in which it would be popped: by score, ties by hash.
Scores, the factor 1.1 and the ratio 0.8 are exact reals or rationals.

Where the code and the description of an operation differ, the model follows the code:

- A replacement takes the old transaction out before it validates the new one. A replacement that then fails loses
  the old transaction and leaves its queue entry behind (`ReplaceOutcome`, `StepExactIff`, `StaleEntryDuplicates`).
  Over every run the queue is the ranking of the pool plus exactly those entries (`QueueConservedOverRuns`).
- A replacement whose hash is already pooled under another nonce overwrites that entry and breaks the nonce index.
  Exactly this breaks it (`ReplaceConsistentIff`). Under the shipped hash, which sees only the sender and twelve
  bytes of the receiver, three ordinary calls reach it (`ShippedHashBreaksIndex`). Over every run the index is the
  inverse of the pool plus the slots so left dangling (`IndexAccountedOverRuns`), which stay until the pool is cleared
  (`DanglingIsForever`), shut their sender out (`AddOutcomeOverRuns`) and can cost it another transaction
  (`DanglingSlotLosesTransaction`). That every pooled transaction is listed, that no two share a sender and nonce, the
  order by time and the fee ratchet hold for every hash function all the same.
- A fee eviction that fires while the pool holds fewer than four fifths of its maximum computes a wrapped count and
  empties the pool (`FeeEvictionLeaves`, `EvictionEmptiesPool`); a threshold ratio of at least 0.8 rules this out
  (`FeeEvictionHitsTarget`).
- Running gas totals wrap in block selection (`AlwaysWithinCapIff`, `SelectionExceedsCap`) and in block validation
  (`GasFitsExact`, `WrappedGasPasses`).
- Three block setters keep the cached hash; the cache is always fresh exactly when the digest cannot see those
  fields, which the shipped digest cannot (`CacheFreshIffGasFieldsIgnored`, `ShippedCacheFresh`).
- Printing or parsing an amount keeps the fractional wei only modulo 2^32 (`PrintParseIdentityIff`, `LostWei`), and a
  whole number of ether above 18 parses to a wrapped amount (`ParseWholeExactIff`, `NineteenEther`).
- `difficulty_from_target` does not read what `target_from_difficulty` writes (`TargetRoundTripIff`).
- A callee that throws while the breaker probes, or 2^31 failures in a row, leaves the breaker half-open
  (`HalfOpenIff`, `ThrowingProbeLeavesDoorOpen`, `WrappedCounterLeavesDoorOpen`).

## Model

| member | source | states |
|---|---|---|
| `MempoolImpl.Mempool.AddTransaction` | modules/mempool/src/mempool_impl.cpp:20-67 | the method's effect on all three structures, its eviction on the way and its error are those of `MempoolSpec.Add` |
| `MempoolImpl.Mempool.RemoveTransaction` | modules/mempool/src/mempool_impl.cpp:69-95 | removes the entry and its index slot and rebuilds the queue, or reports an unknown hash |
| `MempoolImpl.Mempool.ReplaceTransaction` | modules/mempool/src/mempool_impl.cpp:113-167 | the method's effect and error, late failures included, are those of `MempoolSpec.Replace` |
| `MempoolImpl.Mempool.EvictExpiredTransactions` | modules/mempool/src/mempool_impl.cpp:232-235 | the removal loop takes out exactly the expired set |
| `MempoolImpl.Mempool.EvictLowFeeTransactions` | modules/mempool/src/mempool_impl.cpp:237-246 | fires at the threshold and takes out the lowest-ranked transactions, their number an unsigned difference |
| `MempoolImpl.Mempool.EvictTransactionsByFee` | modules/mempool/src/mempool_impl.cpp:424-430 | takes out the `count` lowest-ranked transactions |
| `MempoolImpl.Mempool.RemoveAll` | modules/mempool/src/mempool_impl.cpp:419-421 | removing listed hashes one by one, each with a rebuild, is one removal of the set |
| `MempoolImpl.Mempool.Clear` | modules/mempool/src/mempool_impl.cpp:248-257 | leaves the empty pool |
| `MempoolImpl.Mempool.IsPoolFull` | modules/mempool/src/mempool_impl.cpp:341-344 | full by count or by the exact sum of sizes |
| `MempoolImpl.Mempool.ValidateTransaction` | modules/mempool/src/mempool_impl.cpp:292-298 | accepts exactly valid, fairly priced, small enough transactions above every pooled nonce of the sender |
| `MempoolImpl.Mempool.UpdateAccountNonce` | modules/mempool/src/mempool_impl.cpp:346-348 | sets one index slot |
| `MempoolImpl.Mempool.RemoveAccountNonce` | modules/mempool/src/mempool_impl.cpp:350-358 | drops one index slot and an account left empty |
| `MempoolImpl.Mempool.RebuildPriorityQueue` | modules/mempool/src/mempool_impl.cpp:372-380 | the queue becomes the ranking of the pool |
| `MempoolImpl.Mempool.GetTransactionsForBlock` | modules/mempool/src/mempool_impl.cpp:191-217 | returns the greedy selection `Chosen` |
| `MempoolImpl.Mempool.GetTopTransactions` | modules/mempool/src/mempool_impl.cpp:169-189 | returns the first live queue entries |
| `MempoolImpl.SumSizes` | modules/mempool/src/mempool_impl.cpp:273-274 | the size total does not depend on the iteration order |
| `MempoolImpl.HighestNonce` | modules/mempool/src/mempool_impl.cpp:360-370 | the highest listed nonce, absent exactly when nothing is listed |
| `MempoolImpl.CollectExpired` | modules/mempool/src/mempool_impl.cpp:409-417 | collects exactly the expired hashes, each once |
| `MempoolImpl.CollectLowest` | modules/mempool/src/mempool_impl.cpp:432-450 | collects exactly the lowest-ranked hashes, each once |
| `MempoolQueue.RebuildLoop` | modules/mempool/src/mempool_impl.cpp:372-380 | emplacing in any order yields the one ranking of the pool |
| `MempoolQueue.RankingUnique` | modules/mempool/src/mempool_impl.hpp:65-67 | a scored set has exactly one pop order |
| `MempoolQueue.EnqueueRanks` | modules/mempool/src/mempool_impl.cpp:58-58 | emplacing one more scored hash gives the ranking of the larger set |
| `MempoolSpec.ScoreLaw` | modules/mempool/include/chainforge/mempool/mempool.hpp:37-42 | score times size (at least 1000 bytes) is the fee raised by 1/3600 per second of age |
| `MempoolSpec.FreshScore` | modules/mempool/src/mempool_impl.cpp:332-339 | a transaction added within one clock reading scores its fee per 1000 bytes, without age bonus |
| `MempoolInvariants.SlotsAreExclusive` | modules/mempool/src/mempool_impl.cpp:346-348 | where every pooled transaction is listed, no two share a sender and nonce |
| `MempoolInvariants.RemoveSetStep` | modules/mempool/src/mempool_impl.cpp:419-421 | a set of removals may end with any of its members: the order does not matter |
| `MempoolInvariants.RemoveSetContents` | modules/mempool/src/mempool_impl.cpp:419-421 | a sweep takes out exactly the given hashes |
| `MempoolRuns.AddOutcome` | modules/mempool/src/mempool_impl.cpp:20-67 | the outcome of an addition with counts and bytes written out: no change, entered with nothing lost below both limits, else a fee eviction and entry if that made room |
| `MempoolRuns.ReplaceOutcome` | modules/mempool/src/mempool_impl.cpp:113-167 | the outcome of a replacement from facts checkable beforehand: no change, loss of exactly the old transaction, or exchange of exactly one, the last only on the sender's highest nonce |
| `MempoolRuns.ReplaceConsistentIff` | modules/mempool/src/mempool_impl.cpp:144-164 | a successful replacement keeps the index exact if and only if its hash is not pooled under another slot |
| `MempoolRuns.ListedOverRuns` | modules/mempool/src/mempool_impl.cpp:20-167 | in every run, for every hash function, every pooled transaction is listed under its sender and nonce |
| `MempoolRuns.OneOccupantOverRuns` | modules/mempool/src/mempool_impl.cpp:20-167 | in every run, for every hash function, no two pooled transactions share a sender and nonce |
| `MempoolRuns.IndexExactOverRuns` | modules/mempool/src/mempool_impl.cpp:20-167 | in every run without colliding replacements the nonce index is the exact inverse of the pool, with no empty account |
| `MempoolDangling.StepAccounts` | modules/mempool/src/mempool_impl.cpp:20-167 | a step keeps inverse plus dangling slots: a colliding replacement adds the slot of the transaction it overwrites, clearing drops them all |
| `MempoolDangling.IndexAccountedOverRuns` | modules/mempool/src/mempool_impl.cpp:20-167 | in every run, for every hash function, the index is the inverse of the pool plus the slots left dangling by colliding replacements |
| `MempoolDangling.IndexExactOverRunsIff` | modules/mempool/src/mempool_impl.cpp:162-163 | in every run the index is the exact inverse of the pool if and only if no slot dangles |
| `MempoolDangling.DanglingIsForever` | modules/mempool/src/mempool_impl.cpp:113-167 | a dangling slot stays, naming the same hash, until the pool is cleared |
| `MempoolDangling.AddOutcomeOverRuns` | modules/mempool/src/mempool_impl.cpp:20-67 | the same in every run for every hash function: dangling nonces count as taken |
| `MempoolDangling.ReplaceOutcomeOverRuns` | modules/mempool/src/mempool_impl.cpp:113-167 | the outcome of a replacement likewise; through a dangling slot it loses the transaction named there |
| `MempoolOutcomes.WellFormedIff` | modules/mempool/src/mempool_impl.cpp:292-298 | accepted, nonce aside: nonzero sender, at least 21000 gas, fee within the configured bounds, at most 130976 bytes of payload, and a value or a contract's code |
| `MempoolOutcomes.TotalBytesLaw` | modules/mempool/src/mempool_impl.cpp:272-273 | the byte total is nothing for no transaction and 96 bytes and its payload for each |
| `MempoolOutcomes.EntryScore` | modules/mempool/src/mempool_impl.cpp:331-339 | an entry keeps the first clock reading and scores its fee, raised by one part in 3600 per second between both readings, per 1000 bytes |
| `MempoolOutcomes.AddInNumbersOverRuns` | modules/mempool/src/mempool_impl.cpp:20-67 | in every run: below both limits an acceptable transaction is entered and nothing is lost; at a limit a fee eviction comes first, and the transaction enters if that made room |
| `MempoolOutcomes.FillsToMaximum` | modules/mempool/src/mempool_impl.cpp:20-67 | an empty pool takes up to `max_transactions` acceptable transactions in a row and keeps every one |
| `MempoolOutcomes.ReplaceInNumbersOverRuns` | modules/mempool/src/mempool_impl.cpp:113-167 | in every run: no change, loss of exactly the old transaction, or exchange of exactly one, with the conditions written out |
| `MempoolOutcomes.EvictionOverRuns` | modules/mempool/src/mempool_impl.cpp:237-246 | in every run a fee eviction changes nothing below ratio times maximum, and else leaves 0.8 times the maximum, rounded down, or nothing |
| `MempoolOutcomes.EvictionKeepsBest` | modules/mempool/src/mempool_impl.cpp:432-450 | what is kept is unchanged and beats what is lost by score, at one score by hash |
| `MempoolOutcomes.ExpiryInNumbers` | modules/mempool/src/mempool_impl.cpp:409-422 | an age sweep keeps exactly what is at most 3600 s old, or whose age wraps to that |
| `MempoolRuns.IndexExactWithDistinctHashes` | modules/mempool/src/mempool_impl.cpp:20-167 | the same for every run whose submitted transactions have distinct hashes |
| `MempoolRuns.QueueCoversOverRuns` | modules/mempool/src/mempool_impl.cpp:20-167 | in every run each pooled transaction has a queue entry with its score |
| `MempoolRuns.StepExactIff` | modules/mempool/src/mempool_impl.cpp:144-164 | a step takes the queue away from the pool if and only if it is a late-failing replacement |
| `MempoolRuns.QueueExactOverRuns` | modules/mempool/src/mempool_impl.cpp:20-167 | in runs without those the queue is exactly the pool in rank order |
| `MempoolStale.StepConserves` | modules/mempool/src/mempool_impl.cpp:20-167 | a step keeps ranking plus stale entries: a late failure adds the displaced transaction's entry, a rebuild drops them all |
| `MempoolStale.QueueConservedOverRuns` | modules/mempool/src/mempool_impl.cpp:20-167 | in every run the queue is, as a multiset, the ranking of the pool plus the entries left by late-failing replacements since the last rebuild |
| `MempoolStale.QueueExactOverRunsIff` | modules/mempool/src/mempool_impl.cpp:144-164 | in every run the queue is exactly the pool in rank order if and only if no such entry is left |
| `MempoolRuns.SweptNonceIsNext` | modules/mempool/src/mempool_impl.cpp:30-41 | an eviction between validation and insertion cannot make the nonce conflict, whatever the index |
| `MempoolBounds.CapacityOverRuns` | modules/mempool/src/mempool_impl.cpp:35-41 | never more than `max_transactions`; bytes below the limit plus one maximal transaction, plus one per successful replacement |
| `MempoolBounds.PooledValidOverRuns` | modules/mempool/src/mempool_impl.cpp:292-298 | in every run all pooled transactions are valid, small enough and priced within what a configuration allowed |
| `MempoolBounds.LowestCount` | modules/mempool/src/mempool_impl.cpp:432-450 | exactly `count` pooled transactions are selected for eviction, or all |
| `MempoolBounds.KeptOutrankEvicted` | modules/mempool/src/mempool_impl.cpp:432-450 | no kept score is below an evicted one |
| `MempoolBounds.TargetIsFloor` | modules/mempool/src/mempool_impl.cpp:244-244 | the target is 0.8 times the maximum, rounded down |
| `MempoolBounds.FeeEvictionLeaves` | modules/mempool/src/mempool_impl.cpp:237-246 | a fee eviction that fires, on pools above their maximum too, leaves the target count, or nothing when the pool was below it |
| `MempoolBounds.FeeEvictionHitsTarget` | modules/mempool/src/mempool_impl.cpp:237-246 | with a threshold ratio of at least 0.8 it leaves exactly the target count |
| `MempoolBounds.CountNeverBlocks` | modules/mempool/src/mempool_impl.cpp:35-41 | with a ratio between 0.8 and 1, an addition to a pool at or above its maximum finds room by count |
| `MempoolBounds.TimeOrderedOverRuns` | modules/mempool/src/mempool_impl.cpp:30-58 | with a clock that does not go back, each sender's pooled transactions are ordered alike by nonce and by time, in every run and for every hash function |
| `MempoolBounds.ExpiredIff` | modules/mempool/include/chainforge/mempool/mempool.hpp:71-73 | when an unsigned age exceeds 3600 s, clock set back included |
| `MempoolBounds.SweepTakesOldest` | modules/mempool/src/mempool_impl.cpp:409-422 | an age sweep keeps exactly what is at most 3600 s old, and takes of each sender only its lowest nonces |
| `MempoolBounds.SweepTakesOldestOverRuns` | modules/mempool/src/mempool_impl.cpp:409-422 | so in every run with such a clock, for every hash function |
| `MempoolBounds.UnderpricedIff` | modules/mempool/src/mempool_impl.cpp:300-311 | refused exactly below 1.1 times the old fee |
| `MempoolBounds.FeeRatchet` | modules/mempool/src/mempool_impl.cpp:300-311 | after `k` successful replacements of one occupied slot, fee times 10^k is at least the first fee times 11^k, for every hash function |
| `MempoolBounds.ReplacementsAreBounded` | modules/mempool/src/mempool_impl.cpp:386-389 | fees capped at `hi` allow `k` replacements of one slot only while the first fee times 11^k is at most `hi` times 10^k |
| `MempoolBounds.DefaultFeesBoundReplacements` | modules/mempool/include/chainforge/mempool/mempool.hpp:56-56 | in every run with the default highest fee, for every hash function, one slot is replaced at most 144 times while occupied |
| `MempoolSelection.SelectLoop` | modules/mempool/src/mempool_impl.cpp:200-216 | the loop with its early exit and wrapping total computes `Chosen` |
| `MempoolSelection.TxsOfAt` | modules/mempool/src/mempool_impl.cpp:206-206 | transactions are returned in the order of the chosen hashes |
| `MempoolSelection.TopLoop` | modules/mempool/src/mempool_impl.cpp:178-188 | the loop returns the first `count` live entries |
| `MempoolSelection.ChosenInRankOrder` | modules/mempool/src/mempool_impl.cpp:200-214 | from an exact queue no transaction is chosen twice and each choice outranks the next |
| `MempoolSelection.ChosenWithinCap` | modules/mempool/src/mempool_impl.cpp:209-211 | the exact gas of the selection is within the cap when no pooled gas limit plus the cap reaches 2^64 |
| `MempoolSelection.AlwaysWithinCapIff` | modules/mempool/src/mempool_impl.cpp:209-211 | every selection respects its cap if and only if all live gas limits sum to less than 2^64 |
| `MempoolSelection.PassedOverForGas` | modules/mempool/src/mempool_impl.cpp:200-214 | greedy and maximal: below the count cap, a transaction is passed over exactly because the choices outranking it leave too little gas |
| `MempoolSelection.MaximalOverRuns` | modules/mempool/src/mempool_impl.cpp:200-214 | in every run, stale entries or not: below the count cap nothing left out fits on top of the selection |
| `MempoolSelection.NeverDuplicatesIff` | modules/mempool/src/mempool_impl.cpp:200-214 | no selection repeats a transaction if and only if no pooled hash has two queue entries |
| `MempoolStale.NeverDuplicatesOverRunsIff` | modules/mempool/src/mempool_impl.cpp:144-214 | in every run no selection repeats a transaction if and only if no entry left by a late failure since the last rebuild names a pooled transaction |
| `MempoolSelection.TopIsBest` | modules/mempool/src/mempool_impl.cpp:169-189 | from an exact queue, whatever is not among the top is outranked by all of them |
| `MempoolSelection.TopCount` | modules/mempool/src/mempool_impl.cpp:178-188 | from any queue: as many as asked for, or all entries whose transaction is still pooled |
| `MempoolSelection.TopAt` | modules/mempool/src/mempool_impl.cpp:178-188 | the i-th returned is the entry with i such entries before it |
| `MempoolSelection.TopInOrder` | modules/mempool/src/mempool_impl.cpp:169-189 | from an exact queue: the lesser of `count` and the pool's size, in falling order of score and then of hash, everything when `count` allows |
| `MempoolSelection.FilledBlocksValidateOverRuns` | modules/core/src/block.cpp:184-191 | in every run, a block filled from the pool passes validation if its gas limit is at least the cap |
| `MempoolExamples.ShippedHashBreaksIndex` | modules/mempool/src/mempool_impl.cpp:162-163 | three calls under the shipped hash after which the index is not exact |
| `MempoolExamples.DanglingSlotLosesTransaction` | modules/mempool/src/mempool_impl.cpp:119-151 | a fourth call, meant for nonce 1, that fails and empties the pool of the transfer of nonce 2 |
| `MempoolExamples.StaleEntryDuplicates` | modules/mempool/src/mempool_impl.cpp:144-151 | three calls after which a block selection holds one transaction twice, for any hash |
| `MempoolExamples.EvictionEmptiesPool` | modules/mempool/src/mempool_impl.cpp:237-246 | two calls after which a pool of one transaction is empty, for any hash |
| `MempoolExamples.SelectionExceedsCap` | modules/mempool/src/mempool_impl.cpp:200-214 | two calls after which a selection capped at 2^63 gas holds 2^64 |
| `MempoolExamples.ShippedSelectionExceedsCap` | modules/mempool/src/mempool_impl.cpp:200-214 | the same under the shipped hash |
| `Merkle.MerkleLoop` | modules/core/src/block.cpp:121-155 | computes the tree's root in exactly ceil(log2 n) levels and between n-1 and n-1+ceil(log2 n) pairings |
| `Merkle.HashMany` | modules/crypto/src/hash.cpp:85-123 | succeeds exactly when every node of the tree does, with its root, in exactly ceil(log2 n) levels and between n-1 and n-1+ceil(log2 n) pairings; else stops in an earlier level with the error of the first pairing to fail |
| `Merkle.LoopsAgree` | modules/crypto/src/hash.cpp:85-123 | both loops give one root when every pairing succeeds |
| `Merkle.CeilLog2` | modules/core/src/block.cpp:138-152 | the least number of levels that covers n leaves |
| `Merkle.RootCommitsToExpansion` | modules/core/src/block.cpp:138-154 | for an injective pair function, trees of one height have one root if and only if the lists agree once self-pairings are written out |
| `Merkle.RootsAgreeIff` | modules/core/src/block.cpp:138-154 | for any two lists: if and only if the lower one agrees with the matching level of the higher one, self-pairings written out |
| `Merkle.RootInjectiveAtEqualLength` | modules/core/src/block.cpp:138-154 | equal-length lists with the same root are equal |
| `Merkle.RepeatedLastLeaf` | modules/core/src/block.cpp:145-148 | an odd list has the root of the list with its last leaf repeated, for any pair function |
| `Merkle.ShippedRoot` | modules/core/src/hash.cpp:109-117 | the shipped root is half of leaf 0 and half of leaf 2^(ceil(log2 n)-1) |
| `Merkle.ShippedRootCollides` | modules/core/src/hash.cpp:109-117 | two lists share their shipped root exactly when those two half-leaves agree |
| `Hashes.CombineLoop` | modules/core/src/hash.cpp:109-117 | the byte loop joins the leading halves |
| `Hashes.PrefixDigestForgetsTail` | modules/core/src/hash.cpp:82-89 | only the first 32 bytes reach the shipped digest |
| `Hashes.PrefixDigestAt` | modules/core/src/hash.cpp:82-89 | byte by byte, the data and then zeros |
| `Blocks.HeaderPreimageInjective` | modules/core/src/block.cpp:77-115 | the header pre-image determines all eight fields |
| `Blocks.HeaderLayout` | modules/core/src/block.cpp:77-115 | 108 bytes: height, parent hash, root, timestamp, nonce, gas limit, gas price and chain id at their offsets |
| `Blocks.ShippedBlockHash` | modules/core/src/block.cpp:70-119 | under the shipped digest a block hash is its height and 24 bytes of its parent's hash |
| `Blocks.BlockRoot` | modules/core/src/block.cpp:121-155 | the root of a block by its transactions: one's hash, else the leading halves of two |
| `Blocks.BuildHeaderPreimage` | modules/core/src/block.cpp:77-115 | the shift loops assemble the pre-image |
| `Blocks.RootStaysCurrent` | modules/core/src/block.cpp:18-68 | through every run of setters and edits the root is the tree of the current transactions |
| `Blocks.ConstructorsAgree` | modules/core/src/block.cpp:9-16 | a new block is a block built from no transactions, with a current root |
| `Blocks.CacheFreshIffGasFieldsIgnored` | modules/core/src/block.cpp:38-48 | over all runs the cached hash is fresh if and only if the digest cannot see the three fields whose setters keep the cache |
| `Blocks.ShippedCacheFresh` | modules/core/src/block.cpp:70-119 | under the shipped digest the cached hash is always fresh |
| `Blocks.SuffixDigestGoesStale` | modules/core/src/block.cpp:38-48 | a digest under which it goes stale |
| `Blocks.GasFitsExact` | modules/core/src/block.cpp:244-253 | the exact gas sum is within the limit if and only if the early-exit check passes and the sum is below 2^64 |
| `Blocks.GasFitsIff` | modules/core/src/block.cpp:244-253 | the check passes exactly when every running total modulo 2^64 is within the limit |
| `Blocks.TotalGasSplits` | modules/core/src/block.cpp:244-253 | the gas of a list is the sum of the gas limits |
| `Blocks.WrappedGasPasses` | modules/core/src/block.cpp:244-253 | two transactions whose sum wraps and passes |
| `Blocks.Block.constructor` | modules/core/src/block.cpp:9-11 | the header of a new block and no transactions |
| `Blocks.Block.FromParts` | modules/core/src/block.cpp:13-16 | the given header with its root recomputed |
| `Blocks.Block.SetHeight` | modules/core/src/block.cpp:18-21 | sets the height, drops the cache |
| `Blocks.Block.SetParentHash` | modules/core/src/block.cpp:23-26 | sets the parent hash, drops the cache |
| `Blocks.Block.SetTimestamp` | modules/core/src/block.cpp:28-31 | sets the timestamp, drops the cache |
| `Blocks.Block.SetNonce` | modules/core/src/block.cpp:33-36 | sets the nonce, drops the cache |
| `Blocks.Block.SetGasLimit` | modules/core/src/block.cpp:38-40 | sets the gas limit, keeps the cache |
| `Blocks.Block.SetGasPrice` | modules/core/src/block.cpp:42-44 | sets the gas price, keeps the cache |
| `Blocks.Block.SetChainId` | modules/core/src/block.cpp:46-48 | sets the chain id, keeps the cache |
| `Blocks.Block.AddTransaction` | modules/core/src/block.cpp:50-54 | appends, recomputes the root, drops the cache |
| `Blocks.Block.RemoveTransaction` | modules/core/src/block.cpp:56-62 | erases at a valid index, else changes nothing |
| `Blocks.Block.ClearTransactions` | modules/core/src/block.cpp:64-68 | no transactions, zero root, no cache |
| `Blocks.Block.CalculateHash` | modules/core/src/block.cpp:70-119 | returns the cached hash, or the digest of the header and caches it |
| `Blocks.Block.CalculateMerkleRoot` | modules/core/src/block.cpp:121-155 | the tree over the hashes of the current transactions |
| `Blocks.Block.ValidateGasLimits` | modules/core/src/block.cpp:244-253 | the loop decides `GasFits`, early exit and wrapping total included |
| `Blocks.Block.ValidateTransactions` | modules/core/src/block.cpp:184-191 | all transactions valid and the gas check passes |
| `Transactions.PreimageInjective` | modules/core/src/transaction.cpp:55-85 | the transaction pre-image determines all seven fields |
| `Transactions.PreimageLayout` | modules/core/src/transaction.cpp:55-85 | sender, receiver, value, gas limit, gas price, nonce and payload at their offsets |
| `Transactions.ValidIff` | modules/core/src/transaction.cpp:110-126 | valid means a nonzero sender, at least 21000 gas, a fee, and a value for a receiver or a payload for none |
| `Transactions.TooLargeIff` | modules/core/src/transaction.cpp:128-136 | too large from a payload of 130977 bytes on |
| `Transactions.BuildPreimage` | modules/core/src/transaction.cpp:55-85 | the shift loops assemble the pre-image |
| `Transactions.Transaction.CalculateHash` | modules/core/src/transaction.cpp:48-89 | cached or not, the answer is the digest of the current fields, for any digest |
| `Transactions.Transaction.SetFrom` | modules/core/src/transaction.cpp:13-16 | changes one field; the cache never outlives it |
| `Transactions.Transaction.SetTo` | modules/core/src/transaction.cpp:18-21 | changes one field; the cache never outlives it |
| `Transactions.Transaction.SetValue` | modules/core/src/transaction.cpp:23-26 | changes one field; the cache never outlives it |
| `Transactions.Transaction.SetGasLimit` | modules/core/src/transaction.cpp:28-31 | changes one field; the cache never outlives it |
| `Transactions.Transaction.SetGasPrice` | modules/core/src/transaction.cpp:33-36 | changes one field; the cache never outlives it |
| `Transactions.Transaction.SetData` | modules/core/src/transaction.cpp:38-41 | changes one field; the cache never outlives it |
| `Transactions.Transaction.SetNonce` | modules/core/src/transaction.cpp:43-46 | changes one field; the cache never outlives it |
| `Bytes.AppendBE` | modules/core/src/transaction.cpp:66-68 | the shift loop appends the big-endian encoding |
| `Bytes.DecodeEncode` | modules/core/src/transaction.cpp:66-68 | big-endian encoding loses nothing that fits |
| `Bytes.LexLaw` | modules/storage/src/rocksdb_database.cpp:21-21 | the order of byte strings: the first difference decides, a proper prefix comes first |
| `PeerExchange.SerializePeers` | modules/p2p/src/peer_discovery.cpp:366-396 | the printer writes `Serialize(peers)` |
| `PeerExchange.DeserializePeers` | modules/p2p/src/peer_discovery.cpp:398-442 | on any bytes the parser stays in bounds and yields `Deserialize(data)` |
| `PeerExchange.RecordLayout` | modules/p2p/src/peer_discovery.cpp:378-393 | length byte, ip, two bytes of port and four of services at their offsets |
| `PeerExchange.ListLayout` | modules/p2p/src/peer_discovery.cpp:369-395 | four bytes of count, then record after record |
| `PeerExchange.RoundTripIff` | modules/p2p/src/peer_discovery.cpp:366-442 | a list survives printing and parsing if and only if every ip has at most 255 bytes and there are fewer than 2^32 peers |
| `PeerExchange.TruncationKeepsWholeRecords` | modules/p2p/src/peer_discovery.cpp:414-442 | a cut list parses to exactly the peers whose records are complete |
| `PeerExchange.WholeRecordsIsLargest` | modules/p2p/src/peer_discovery.cpp:414-442 | that number is the largest whose records fit |
| `PeerExchange.ParsedIsPrefix` | modules/p2p/src/peer_discovery.cpp:398-442 | on any bytes, what was parsed prints back to what was read; parsing stops only at the count or before a broken record |
| `PeerExchange.ReserializedBodyIsPrefix` | modules/p2p/src/peer_discovery.cpp:398-442 | re-serializing yields a body that is a prefix of the received one |
| `PeerExchange.ParsedIsEncodable` | modules/p2p/src/peer_discovery.cpp:398-442 | everything parsed can be sent on unchanged |
| `PeerTable.AddAllEntersFirstNewcomers` | modules/p2p/src/peer_discovery.cpp:105-130 | offering peers enters exactly the first acceptable newcomers there is room for |
| `PeerTable.AddAllIsSafe` | modules/p2p/src/peer_discovery.cpp:105-130 | old entries keep their contents, new ones were offered and are acceptable, the maximum holds |
| `PeerTable.AddOutcome` | modules/p2p/src/peer_discovery.cpp:105-130 | a peer enters exactly with a nonzero port, a good ip, a new endpoint and room; nothing else changes |
| `PeerTable.MessageDelivers` | modules/p2p/src/peer_discovery.cpp:296-306 | a whole message delivers the sender's list; without the prefix nothing is taken in |
| `PeerTable.TruncatedMessageIsHonest` | modules/p2p/src/peer_discovery.cpp:296-306 | a peer-list message cut anywhere brings in no endpoint its sender did not list |
| `PeerTable.SoundOverRuns` | modules/p2p/src/peer_discovery.cpp:105-306 | whatever arrives, in every run at most `max_peers` endpoints, all acceptable |
| `PeerTable.StaleIff` | modules/p2p/src/peer_discovery.cpp:235-235 | stale exactly one full second beyond the maximal age |
| `PeerTable.CleanupKeeps` | modules/p2p/src/peer_discovery.cpp:228-246 | cleaning up keeps, unchanged, exactly what is less than a full second beyond the maximal age |
| `PeerTable.SelectPeersToShare` | modules/p2p/src/peer_discovery.cpp:444-462 | all peers if they fit, else the most recent ones, most recent first, and nobody left out was seen later |
| `PeerTable.PeerDiscovery.TryAdd` | modules/p2p/src/peer_discovery.cpp:105-130 | inserts an acceptable new endpoint into a table with room |
| `PeerTable.PeerDiscovery.RemovePeer` | modules/p2p/src/peer_discovery.cpp:132-135 | erases by endpoint and says whether it was there |
| `PeerTable.PeerDiscovery.ExchangePeers` | modules/p2p/src/peer_discovery.cpp:213-226 | takes in their peers, then shares the best ten of the new table |
| `PeerTable.PeerDiscovery.GetPeers` | modules/p2p/src/peer_discovery.cpp:95-98 | lists every peer once, by ip and then by port |
| `PeerTable.PeerDiscovery.HandlePeerList` | modules/p2p/src/peer_discovery.cpp:296-306 | parses and adds the peers of a peer-list message |
| `PeerTable.PeerDiscovery.CleanupStalePeers` | modules/p2p/src/peer_discovery.cpp:228-246 | the erasing pass removes exactly the stale entries |
| `CircuitBreaker.StateMeaning` | modules/core/include/chainforge/core/error_utils.hpp:134-182 | in every run the state is a function of the admitted failures since the last success or reset and of whether the last probe threw |
| `CircuitBreaker.CallOutcome` | modules/core/include/chainforge/core/error_utils.hpp:134-182 | one call after any run: turned away before the timeout with no change, else reaching the callee, with the effect of each ending |
| `CircuitBreaker.LastFailureOverRuns` | modules/core/include/chainforge/core/error_utils.hpp:175-182 | the stamp is the time of the last failure that reached its callee |
| `CircuitBreaker.OpenIffThresholdReached` | modules/core/include/chainforge/core/error_utils.hpp:175-182 | open exactly when at least one and at least `threshold` admitted calls failed since, else closed |
| `CircuitBreaker.HalfOpenIff` | modules/core/include/chainforge/core/error_utils.hpp:138-155 | rests half-open exactly after a throwing probe or a counter wrapped below the threshold |
| `CircuitBreaker.ThrowingProbeLeavesDoorOpen` | modules/core/include/chainforge/core/error_utils.hpp:138-147 | a breaker that a throwing probe leaves admitting every call |
| `CircuitBreaker.WrappedCounterLeavesDoorOpen` | modules/core/include/chainforge/core/error_utils.hpp:175-182 | 2^31 failures a timeout apart after which the breaker admits every call |
| `CircuitBreaker.AdmissionsAreBounded` | modules/core/include/chainforge/core/error_utils.hpp:138-145 | once open, while admitted calls only fail, the k-th admitted call comes at least k timeouts later |
| `CircuitBreaker.OpenBreakerIsProbedSlowly` | modules/core/include/chainforge/core/error_utils.hpp:134-182 | so after every run from a new breaker that leaves it open, while failures stay below 2^31 |
| `CircuitBreaker.Guard.Execute` | modules/core/include/chainforge/core/error_utils.hpp:134-156 | one call's effect, and whether the callee was reached |
| `CircuitBreaker.Guard.Reset` | modules/core/include/chainforge/core/error_utils.hpp:163-167 | closes and zeroes the counter |
| `CircuitBreaker.Guard.RecordFailure` | modules/core/include/chainforge/core/error_utils.hpp:175-182 | counts, stamps and opens at the threshold |
| `RateLimiter.LimiterCountsWindow` | modules/core/include/chainforge/core/error_utils.hpp:295-316 | the pruned deque answers as counting the full error history inside the window would |
| `RateLimiter.WindowRule` | modules/core/include/chainforge/core/error_utils.hpp:295-311 | in numbers: allowed exactly when 1000 times the errors no older than the window is at most rate times window |
| `RateLimiter.WithinRateIff` | modules/core/include/chainforge/core/error_utils.hpp:295-311 | errors per second, whatever the sign of the window; a zero window allows nothing |
| `RateLimiter.ErrorRateLimiter.ShouldAllowOperation` | modules/core/include/chainforge/core/error_utils.hpp:295-311 | the pruning loop's answer is that count against the limit, over the whole run |
| `RateLimiter.ErrorRateLimiter.RecordError` | modules/core/include/chainforge/core/error_utils.hpp:313-316 | appends the time of the error |
| `RateLimiter.RetryWithBackoff` | modules/core/include/chainforge/core/error_utils.hpp:75-95 | returns the first success within the attempts, with one backed-off pause between two attempts and none after the last |
| `RateLimiter.BackoffGrows` | modules/core/include/chainforge/core/error_utils.hpp:87-90 | with a multiplier of at least one, delays never shrink and stay within the exact geometric backoff |
| `RateLimiter.ScaleTruncates` | modules/core/include/chainforge/core/error_utils.hpp:87-90 | a scaled delay is the product with its fraction cut off |
| `RateLimiter.BackoffExact` | modules/core/include/chainforge/core/error_utils.hpp:87-90 | with a whole multiplier the delays are exactly geometric |
| `Amounts.ParsePrinted` | modules/core/src/amount.cpp:28-51 | parsing a printed amount keeps whole ether and the fractional wei modulo 2^32 |
| `Amounts.PrintParseIdentityIff` | modules/core/src/amount.cpp:147-172 | printing then parsing is the identity if and only if the fractional wei fit in 32 bits |
| `Amounts.PrintedForm` | modules/core/src/amount.cpp:28-51 | a plain numeral for the whole ether, a dot and a plain fraction for the wei modulo 2^32 |
| `Amounts.ParsePrintIdentity` | modules/core/src/amount.cpp:147-172 | parsing then printing gives back every plain amount that fits |
| `Amounts.LostWei` | modules/core/src/amount.cpp:24-26 | an amount that is lost |
| `Amounts.ParseDecimal` | modules/core/src/amount.cpp:147-172 | what every decimal numeral parses to, errors included |
| `Amounts.FractionIsDecimal` | modules/core/src/amount.cpp:147-172 | fractional digits count down from tenths to wei; more than eighteen are dropped |
| `Amounts.ParseAny` | modules/core/src/amount.cpp:147-172 | spaces, a sign, digits and a rest: the number, its negative modulo 2^64, or the error |
| `Amounts.ParseDecimalExactIff` | modules/core/src/amount.cpp:169-171 | a numeral parses to what it denotes exactly when its fractional wei are below 2^32 |
| `Amounts.ParseWholeExactIff` | modules/core/src/amount.cpp:150-153 | without a dot the result is right exactly up to 18 ether |
| `Amounts.NineteenEther` | modules/core/src/amount.cpp:150-153 | "19" parses to 553255926290448384 wei |
| `Amounts.PadLeftLoop` | modules/core/src/amount.cpp:39-41 | the loop pads with zeros on the left |
| `Amounts.FitRightLoop` | modules/core/src/amount.cpp:160-167 | cutting and padding give eighteen characters |
| `Amounts.PlusIsChecked` | modules/core/src/amount.cpp:63-66 | the wrapped-sum test catches exactly the overflows |
| `Amounts.TimesIsChecked` | modules/core/src/amount.cpp:75-85 | the division test rejects exactly the products that do not fit |
| `Difficulty.HashToDifficulty` | modules/consensus/src/consensus_impl.cpp:211-226 | the byte loop reads the first eight bytes big-endian |
| `Difficulty.DifficultyIsQuotient` | modules/consensus/src/consensus_impl.cpp:211-226 | how often the value goes into 2^64 - 1, the highest for zero |
| `Difficulty.MeetsIffBelowTarget` | modules/consensus/src/consensus_impl.cpp:204-226 | a hash meets d exactly when those bytes are at most floor((2^64-1)/max(d,1)) |
| `Difficulty.DifficultyIsMonotone` | modules/consensus/src/consensus_impl.cpp:204-226 | smaller hashes are never less difficult; a higher d never admits more hashes |
| `Difficulty.TargetRoundTripIff` | modules/consensus/src/consensus_impl.cpp:299-323 | reading back a written target yields the maximum, whatever the difficulty |
| `Difficulty.TargetLayout` | modules/consensus/src/consensus_impl.cpp:299-323 | 24 zero bytes, then how often the difficulty goes into 2^64 - 1 |
| `Storage.LastWriteDecides` | modules/storage/src/rocksdb_database.cpp:205-225 | per key the last operation of a batch decides |
| `Storage.BatchesAgree` | modules/storage/src/rocksdb_database.cpp:205-225 | batches with the same last operations have the same effect |
| `Storage.UndoBatchRestores` | modules/storage/src/rocksdb_database.cpp:205-225 | a batch writing back what another one touched restores the data |
| `Storage.ClosedIsEmpty` | modules/storage/src/rocksdb_database.cpp:138-160 | in every run a closed database is empty |
| `Storage.ErrorIfExistsIsIdle` | modules/storage/src/rocksdb_database.cpp:138-150 | `error_if_exists` never has an effect; opening fails exactly when already open |
| `Storage.LookupOverRuns` | modules/storage/src/rocksdb_database.cpp:138-225 | in every run a lookup finds what the last deciding call left, and nothing once closed |
| `Storage.MemoryDatabase.OpenDatabase` | modules/storage/src/rocksdb_database.cpp:138-150 | effect and error of opening |
| `Storage.MemoryDatabase.Close` | modules/storage/src/rocksdb_database.cpp:152-160 | closing clears the data |
| `Storage.MemoryDatabase.Get` | modules/storage/src/rocksdb_database.cpp:166-178 | value and error of a lookup |
| `Storage.MemoryDatabase.PutValue` | modules/storage/src/rocksdb_database.cpp:180-188 | effect and error of a put |
| `Storage.MemoryDatabase.Remove` | modules/storage/src/rocksdb_database.cpp:190-203 | effect and error of a removal |
| `Storage.MemoryDatabase.WriteBatch` | modules/storage/src/rocksdb_database.cpp:205-225 | the loop applies the operations in order |
| `Storage.MemoryDatabase.NewIterator` | modules/storage/src/rocksdb_database.cpp:227-234 | an iterator exactly when open, over the sorted keys |
| `Storage.SortKeys` | modules/storage/src/rocksdb_database.cpp:14-23 | every key once, strictly increasing |
| `Storage.LowerBound` | modules/storage/src/rocksdb_database.cpp:41-41 | the first position not below the key |
| `Storage.MemoryIterator.Seek` | modules/storage/src/rocksdb_database.cpp:39-47 | the position of the key cut to an `int`; up to 2^31 keys, valid on the key exactly when it is listed |
| `Storage.MemoryIterator.Next` | modules/storage/src/rocksdb_database.cpp:49-55 | one key on, invalid after the last, unless the increment overflows |
| `Storage.MemoryIterator.Prev` | modules/storage/src/rocksdb_database.cpp:57-63 | one key back, invalid before the first |
| `Storage.MemoryIterator.ReadAll` | modules/storage/src/rocksdb_database.cpp:31-79 | walking with key and value reads each listed key with its current value, empty if erased; unchanged data are read whole |
| `Storage.WalkCopiesIff` | modules/storage/src/rocksdb_database.cpp:65-79 | what a walk reads rebuilds the current data if and only if no key was added or erased since the iterator was made |
| `Storage.WalkAfterBatch` | modules/storage/src/rocksdb_database.cpp:71-79 | after a batch written under the iterator: the value last put, nothing if last erased, else the old value |
| `Storage.MemoryIterator.WalkForward` | modules/storage/src/rocksdb_database.cpp:31-55 | up to the 2^31 keys an `int` can number, `next` from the first visits every key once in strictly increasing order and then turns invalid |
| `Storage.MemoryIterator.WalkBackward` | modules/storage/src/rocksdb_database.cpp:35-63 | `prev` from the last visits the reverse; of more than 2^31 keys only those up to the cast position |

## Left out

- Mutexes, callbacks and thread timing: every public method is one atomic step.
- Floating-point rounding of scores, of the factor 1.1 and of the eviction ratios: exact reals and rationals instead.
- Transaction and block objects changed through their mutable accessors, which bypass the caches.
- MempoolImpl.Mempool.IsPoolFull: the byte total is the exact sum and does not wrap at 2^64; each pooled transaction takes up at least its size in memory, so a 64-bit address space cannot hold a sum that wraps.
- PeerTable.SelectPeersToShare: peers seen at the same time may be shared in any order, as with an unstable sort.
- The checks on ip syntax and routability, which an address library decides: a parameter of the peer table.
- The `DISCOVER:` branch of discovery messages, DNS seeds, sockets, timers and HTTP: I/O plumbing.
- Real digests, signatures, key pairs and random numbers: library calls; digests are parameters.
- Hexadecimal printing and parsing of hashes, `get_stats` beyond the size total, JSON and logging: only easy members.
- The protobuf serializer and validator: the generated classes are not part of this model.
- Mining, the floating-point difficulty adjusters and the statistics counters.
- Retries with jitter, timeouts, fallbacks and bulkheads: thread timing or easy members.
