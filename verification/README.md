# Irium node: consensus-side models and proofs

This project models the parts of the Irium node that decide what the chain accepts and remembers,
and proves what they promise over every input, every run or every reachable state.

- **Header relay** (`CompactBits`, `RelayModel`, `HeaderRelay`, `RelayTree`, `RelayRuns`, `RelayWork`,
  `RelayRetarget`, `RelayAccept`, `RelayBatch`, `RelayWitness`, `RelayPrefix`, `RelayFork`, `RelayMedian`,
  `RelayDifficulty`, `HeaderBatch`). The Bitcoin and Litecoin relays keep a
  tree of foreign headers inside consensus state: batches are validated against stored and staged headers,
  committed at once, may move the tip, and are undone when a block is disconnected. One model serves both
  chains; `Kind` selects what differs between the two files. `RelayModel` holds the step functions,
  `HeaderRelay.Relay` is the imperative relay proved equal to them, `RelayAccept`, `RelayRetarget` and
  `RelayWork` say what the step functions compute without naming them, and the other modules prove what
  all runs keep.
- **Mempool** (`MempoolModel`, `MempoolRank`, `Mempool`). Admission, eviction, header-carrier
  deduplication and the per-address rate table. Fees are judged in whole numbers, fee against size; the
  stored fee per byte is proved to decide alike.
- **Receipts and roots** (`ReceiptExt`, `ReceiptHead`, `Receipts`, `ReceiptParser`, `Sorting`,
  `ReceiptsRoot`, `LegacyRoot`). The PoAW-X receipt codec with its ten tagged sections, and the three
  roots taken over receipts or leaves.
- **Blocks and merge mining** (`Merkle`, `MerkleExact`, `AuxPow`, `AuxWire`, `Blocks`, `BlockTx`). Merkle trees and
  branches, merge-mining proofs, and the wire form of whole blocks.
- **Bitcoin transactions** (`BtcTx`, `BtcWire`). The SegWit-aware output parser and transaction id, and the
  transaction format written out, which the parser accepts in full and nothing besides.
- **Selection, limits, emission** (`Candidates`, `CandidateSets`, `AdmissionLimiter`, `AdmissionExact`,
  `Emission`).
- **Layouts** (`WireLayouts`). Where each field of each format stands on the wire, by offset.
- `Basics` and `Reading` hold machine integers, byte strings and cursor readers shared by the codecs.

Hash functions are parameters. A result that rests on a hash says "equal, or these two strings, which
differ and were hashed for the values in question, have one hash". Relay results assume that no submitted
header hashes to the anchor's hash. Where the source returns an error text, the model returns an error
value, or `None` where the kind of error decides nothing.

Some promises hold only under a condition, and the condition is stated as an if-and-only-if: a batch
leaves the same tip as its headers one at a time (`BatchSameState`, with a batch that shows the difference
in `TipCanDiffer`); a batch may begin with stored headers (`PrefixedBatch`, with a refused fork in
`ForkRefused`); a Merkle root binds its list (`RootExact`, with the families `RepeatedTail` and
`OddBlockAmbiguous`); the bytes under the legacy receipts root depend on the receipts alone
(`LegacyDetermined`); a source gets less than twice its limit through per window (`LimitExact`, with the
runs built in `SecondWindow` and `ShortCooldown`); a block, a receipt section, a candidate set, a
transaction or a merge-mining proof reads back from its own bytes (`ChainBlockRoundTripIff`,
`SectionRoundTripIff`, `SetRoundTripIff`, `TxRoundTripIff`, `ProofRoundTripIff`).

Two comments in the source do not describe its code, and the model follows the code. The comment above
`irx1_root_from_block_receipts_audit` says that for a single receipt both roots are the same; since the
audited inner hash also covers the signer key and signature they are not (`SingleDiffers`). The comment
above `admission_rate_allowed` calls its window sliding with at most the limit per window; the window is
restarted when it has run out, and no setting keeps a source to the limit per sliding window
(`NoSlidingLimit`).

The legacy receipts root binds receipts only up to signer key and signature (`LegacyBinds`,
`SignatureUnbound`); the audited root binds them in full (`AuditRootBinds`).

`dafny verify dfyconfig.toml` checks the whole project.

## Model

| member | source | states |
|---|---|---|
| `CompactBits.TargetToCompactBits` | src/btc_spv.rs:298-319 | the byte-shuffling encoder computes the arithmetic compact form of every target |
| `CompactBits.RoundedBounds` | src/btc_spv.rs:298-319 | decoding an encoded target never raises it and loses less than one part in 2^15 |
| `CompactBits.RoundedMonotone` | src/ltc_spv.rs:400-421 | larger targets never round below smaller ones |
| `CompactBits.RoundedIdempotent` | src/btc_spv.rs:298-319 | rounding twice is rounding once |
| `CompactBits.EncodeDecode` | src/pow.rs:13-25 | every canonical compact word survives decoding and encoding |
| `CompactBits.EncodeCanonical` | src/btc_spv.rs:298-319 | the encoder only produces canonical words |
| `CompactBits.RoundedGreatest` | src/btc_spv.rs:298-319 | the rounded target is the greatest representable one not above the target |
| `CompactBits.WorkPositive` | src/btc_spv.rs:282-287 | a header carries work exactly when its decoded target is below 2^256 |
| `CompactBits.DecodeExact` | src/pow.rs:13-25 | the decoded target is the three-byte mantissa times 256 to the exponent less three, rounded down for short exponents |
| `CompactBits.WorkExact` | src/btc_spv.rs:282-287 | work times the target plus one is at most 2^256, and one more unit of work would exceed it |
| `CompactBits.WorkAntitone` | src/btc_spv.rs:282-287 | a larger target never carries more work |
| `HeaderRelay.LookupReadsCommit` | src/btc_spv.rs:324-340 | looking a hash up among staged and committed headers gives what the committed map will hold after the batch |
| `HeaderRelay.ProbeIsFullPrefix` | src/btc_spv.rs:492-550 | the Bitcoin all-known probe answers yes exactly when the prefix scan would count the whole batch |
| `HeaderRelay.Relay.CollectTimes` | src/btc_spv.rs:342-363 | the backward loop collects the times of at most eleven headers, anchor included, and stops where the tree does |
| `HeaderRelay.Relay.MedianTimePast` | src/btc_spv.rs:342-363 | the result is the upper median of those times, 0 if there are none |
| `HeaderRelay.Relay.FindAncestorTime` | src/btc_spv.rs:365-390 | the walk ends and returns the time or the error that the recursive walk gives |
| `HeaderRelay.Relay.ExpectedBitsFor` | src/ltc_spv.rs:501-552 | the loop and its branches return the expected bits or each error of the function that `RelayRetarget.ExpectedBitsExact` pins down, for both lookbacks |
| `HeaderRelay.Retargeted` | src/btc_spv.rs:409-435 | the clamp-multiply-divide-cap sequence gives the new target, before it is made compact, of the function that `RelayRetarget.RetargetScales` pins down |
| `HeaderRelay.Relay.Check` | src/btc_spv.rs:563-631 | one header passes or fails for the first of the checks it violates, in the source's order |
| `HeaderRelay.Relay.ScanPrefix` | src/btc_spv.rs:523-550 | the scan finds the longest stored prefix of a batch and the cursor behind it |
| `HeaderRelay.Relay.Probe` | src/btc_spv.rs:492-521 | the probe loop decides whether every header of the batch is stored in its place |
| `HeaderRelay.Relay.StageAll` | src/btc_spv.rs:555-645 | staging accepts or rejects the new headers exactly as the recursive definition, index of the failure included |
| `HeaderRelay.Relay.CommitStaged` | src/btc_spv.rs:647-678 | both maps get exactly the staged entries and the tip moves exactly when the last staged header has more total work; what that work is says `RelayWork.TotalIsSum` |
| `HeaderRelay.Relay.ApplyBatch` | src/btc_spv.rs:456-678 | a batch takes the relay to the state of the step function, which `RelayAccept.ApplyAccepted` and `RelayWork.ApplyMovesTip` describe, and a failing batch leaves all four fields as they were |
| `HeaderRelay.Relay.UndoUpdate` | src/btc_spv.rs:684-697 | undo removes exactly the recorded headers and restores the recorded tip |
| `HeaderRelay.FindPowFailure` | src/ltc_spv.rs:632-643 | finds the first header whose scrypt hash misses its target |
| `RelayTree.TreeGrows` | src/btc_spv.rs:561-645 | adding a checked header keeps every link, every rule and every older header's checks true |
| `RelayTree.StageTree` | src/btc_spv.rs:555-645 | after staging any accepted batch the tree is still sound and holds exactly the new entries beside the old |
| `RelayTree.StageLinked` | src/btc_spv.rs:563-568 | an accepted batch is a chain: each header names the one before |
| `RelayRuns.ApplySound` | src/btc_spv.rs:456-678 | a successful apply keeps: equal keys and heights in both maps, every entry under its own hash, parent stored one lower or the anchor, work equal to the parent's plus its own, no header with more work than the tip; and drops no header |
| `RelayRuns.UndoRestores` | src/btc_spv.rs:684-697 | undoing the update of an apply restores both maps, the tip and the tip height |
| `RelayRuns.ReachableSound` | src/ltc_spv.rs:603-826 | every state reachable from empty by connects and last-in-first-out disconnects is sound |
| `RelayRuns.RunIsReplay` | src/btc_spv.rs:647-697 | any interleaving of connects and disconnects ends in exactly the state and undo records of connecting only the surviving batches |
| `RelayRuns.ReplayedBatch` | src/ltc_spv.rs:655-682 | re-applying a batch that once succeeded, to any later state that holds its headers and at any time, succeeds and changes nothing |
| `RelayRuns.ResubmitInRun` | src/btc_spv.rs:492-550 | in every run of connects, submitting any earlier batch again is a no-op |
| `RelayWork.ChainLinked` | src/btc_spv.rs:633-645 | the stored headers below any header form a chain from the anchor up to it, each naming the one before |
| `RelayWork.TotalIsSum` | src/btc_spv.rs:633-645 | the stored total work is the anchor's work plus the work of every header on that chain |
| `RelayWork.TipIsHeaviest` | src/btc_spv.rs:647-678 | no stored branch has a larger sum of work than the branch of the tip |
| `RelayWork.ApplyMovesTip` | src/btc_spv.rs:647-678 | an apply moves the tip to the last new header exactly when its branch has a larger sum than the old tip's, and leaves it otherwise |
| `RelayRetarget.TimespanSpans` | src/btc_spv.rs:409-420 | the time a retarget goes by is what elapsed, none if the clock ran backwards, held between the expected time over the divisor and over the multiplier, saturated at 32 bits |
| `RelayRetarget.RetargetScales` | src/btc_spv.rs:421-435 | the new target t is the cap, or t × expected ≤ parent × span < (t + 1) × expected; it is the cap only if that much was reached |
| `RelayRetarget.ExpectedBitsExact` | src/ltc_spv.rs:501-573 | above a known parent: its own bits off a retarget height; at one, the scaled target for the time since the ancestor one window less one below the parent, for Litecoin past the first window a whole window below; an error exactly if that lies below the anchor |
| `RelayAccept.MtpExact` | src/btc_spv.rs:342-363 | a time is above the median time past exactly when more than half of the last eleven times, or of as many as there are, are below it |
| `RelayAccept.BitsExact` | src/btc_spv.rs:593-618 | bits pass exactly when they decode to the target that the branch calls for, or the window opens below the anchor |
| `RelayAccept.HeaderAccepted` | src/btc_spv.rs:563-631 | a header passes its checks exactly when it names the parent, is new, has its proof of work, fitting bits, a time above the median and at most two hours ahead of the block |
| `RelayAccept.FirstBad` | src/btc_spv.rs:555-645 | a batch is turned away at the first header that does not |
| `RelayAccept.PrefixExact` | src/btc_spv.rs:523-550 | the known prefix ends before the first header that is not stored behind the one before it, with the cursor there |
| `RelayAccept.PrecheckExact` | src/ltc_spv.rs:603-643 | a batch passes the first checks exactly when it is not empty, the anchor is set and, for Litecoin, it has at most 144 headers whose scrypt hashes meet their targets |
| `RelayAccept.ApplyAccepted` | src/btc_spv.rs:456-678 | a batch is accepted exactly when it connects and is all stored, or its headers from the first unknown one on satisfy the rules, behind stored ones only from the tip's height up |
| `RelayAccept.AddedInTime` | src/btc_spv.rs:626-631 | every header an apply adds is one of the batch and at most 7200 seconds ahead of the block |
| `RelayBatch.BatchIsOneByOne` | src/btc_spv.rs:555-678 | a fresh linked batch succeeds exactly when its headers succeed one at a time, with the same two maps |
| `RelayBatch.BatchSameState` | src/btc_spv.rs:647-678 | the two ways leave the same state exactly when the last header carries work or does not beat the old tip |
| `RelayWitness.TipCanDiffer` | src/btc_spv.rs:647-678 | a two-header batch, accepted both ways from the empty state, after which the states differ |
| `RelayPrefix.PrefixedBatch` | src/btc_spv.rs:523-553 | a batch of stored headers and new ones succeeds exactly when the new ones succeed alone and the stored ones end no lower than the tip, with the same state and undo record |
| `RelayFork.ForkRefused` | src/btc_spv.rs:551-553 | in a reachable state, a fork that is taken alone and refused behind the stored header it branches from |
| `RelayMedian.SortSorts` | src/btc_spv.rs:342-363 | the sort used for the median gives a sorted permutation |
| `RelayMedian.MedianRank` | src/btc_spv.rs:342-363 | the median is at least v exactly when at most half of the times are below v |
| `RelayMedian.MtpStep` | src/btc_spv.rs:342-363 | median time past at a stored header is at least that at its parent, in short and full windows |
| `RelayMedian.MtpMonotone` | src/btc_spv.rs:620-625 | median time past never falls along a stored branch |
| `RelayMedian.TimeAboveAncestors` | src/btc_spv.rs:620-625 | a stored header is later than the median at every ancestor |
| `RelayDifficulty.WalkFinds` | src/btc_spv.rs:365-390 | the walk to a height between anchor and header returns the time of the ancestor at that height |
| `RelayDifficulty.AncestorUnique` | src/btc_spv.rs:365-390 | a header has one ancestor per height |
| `RelayDifficulty.OnlyWindowError` | src/ltc_spv.rs:501-552 | above a known parent the expected bits exist unless the window opens before the anchor, and that is the only error |
| `RelayDifficulty.OneUncheckedHeight` | src/ltc_spv.rs:501-552 | above any anchor at most one height has such a window, for either lookback |
| `RelayDifficulty.TargetConstantBranch` | src/btc_spv.rs:607-618 | the decoded target is constant along a branch between retarget heights |
| `RelayDifficulty.TargetStep` | src/btc_spv.rs:409-435 | at an enforced retarget the target is at most min(max, 4 × parent) and above (1 − 2^-15) × min(max, parent / 4) |
| `RelayDifficulty.RetargetRange` | src/ltc_spv.rs:519-573 | before rounding the new target lies between min(max, parent / 4) and min(max, 4 × parent) |
| `RelayDifficulty.ChainLimits` | src/ltc_spv.rs:92-122 | both chains' parameters meet the limits the two bounds rest on |
| `Basics.LeWeights` | src/btc_spv.rs:61-95 | little-endian: a byte is worth itself, and what stands after k bytes 256^k times as much |
| `HeaderBatch.HeaderRoundTrip` | src/btc_spv.rs:61-95 | every header survives its 80-byte form |
| `HeaderBatch.BytesRoundTrip` | src/btc_spv.rs:61-95 | every 80-byte string survives being read as a header |
| `HeaderBatch.Encode` | src/btc_spv.rs:225-247 | a batch is encoded exactly when it is neither empty nor over its chain's cap |
| `HeaderBatch.Parse` | src/btc_spv.rs:249-280 | a script is accepted exactly when it is the encoding of the batch returned |
| `HeaderBatch.ParsesUnique` | src/ltc_spv.rs:348-379 | a script encodes at most one batch |
| `HeaderBatch.ParsesOneKind` | src/ltc_spv.rs:326-379 | no script is a batch of both chains |
| `Mempool.IsCarrier` | src/mempool.rs:265-272 | decides whether some output script is a header batch of the chain |
| `Mempool.MempoolManager.FindPending` | src/mempool.rs:273-294 | reports a chain whose batch the offer carries and the pool already has, if there is one |
| `Mempool.MempoolManager.PickEvictionTarget` | src/mempool.rs:377-397 | returns an entry below which there is none and which the offer outranks, and none only if there is none; the comparison of ranks and stored rates is proved to be that of priority, then fee against size |
| `Mempool.MempoolManager.CheckRate` | src/mempool.rs:296-312 | collects garbage, then decides by what is left of the table |
| `Mempool.MempoolManager.AddTransaction` | src/mempool.rs:241-369 | old pool, offer, new pool and result are related by the admission rule, every error path included; the fee gate is fee ≥ minimum × size and fee ≥ total minimum |
| `Mempool.MempoolManager.Insert` | src/mempool.rs:333-369 | with room the entry goes in; at the cap it replaces a lowest entry, by priority and then fee × size′ < fee′ × size, or is refused |
| `Mempool.MempoolManager.FindConflicting` | src/mempool.rs:496-505 | finds a pooled spender of the outpoint, and none only if there is none |
| `Mempool.MempoolManager.EvictInvalid` | src/mempool.rs:547-564 | keeps exactly the entries that still validate and counts the rest |
| `MempoolModel.AddsWellKeyed` | src/mempool.rs:333-369 | every entry stays under its own transaction id |
| `MempoolModel.AddsCapped` | src/mempool.rs:333-355 | the pool never grows past its cap |
| `MempoolModel.RateOrder` | src/mempool.rs:315-319 | stored rates compare exactly as fee × size′ against fee′ × size, an empty transaction counting as rate zero |
| `MempoolModel.RateBelow` | src/mempool.rs:324-326 | the stored rate is below a minimum exactly when the fee is below the minimum for that size |
| `MempoolModel.KeyOrder` | src/mempool.rs:382-393 | comparing rank and then stored rate puts every zero-fee entry below every paying one and entries of one priority in the order of fee against size |
| `MempoolModel.EntriesAreOffers` | src/mempool.rs:344-355 | on every run from an empty pool each entry records an offer that was admitted, field by field, under the id of its transaction |
| `MempoolModel.RunOneCarrier` | src/mempool.rs:265-294 | on every run there is never a second pending header batch of a chain |
| `MempoolModel.GcExact` | src/mempool.rs:399-406 | collecting garbage changes no rate decision at that instant or later |
| `MempoolModel.RateExact` | src/mempool.rs:296-312 | on every run with a monotone clock an offer is rate limited exactly when an admission from its address is under 600 s old |
| `MempoolModel.NeverLimited` | src/mempool.rs:296-312 | paying, local and loopback offers are never rate limited and leave the table alone |
| `MempoolModel.AdmissionsSpaced` | src/mempool.rs:358-366 | two zero-fee admissions from one address are at least 600 s apart |
| `MempoolRank.TopUnique` | src/mempool.rs:377-397 | two selections of the n best among the same offers have one size and differ only in which of several tied ones they hold; without ties they are equal |
| `MempoolRank.PoolIsTop` | src/mempool.rs:333-355 | after any run of offers the pool holds exactly the cap-many best of those that passed the gates, by priority and then fee against size |
| `MempoolRank.StandardKept` | src/mempool.rs:377-397 | an add never lowers the number of paying entries |
| `Merkle.ComputeMerkleRoot` | src/auxpow.rs:167-183 | the loop climbs the branch by the index bits |
| `Merkle.MerkleRoot` | src/block.rs:233-262 | the level-by-level loop gives the root of the tree of reversed txids, zero for no transactions |
| `Merkle.BranchComplete` | src/auxpow.rs:167-183 | for every leaf of every block its sibling branch climbs to the block's Merkle root |
| `Merkle.BranchSound` | src/auxpow.rs:167-183 | a branch of that depth from that index reaches the root only from that leaf by that branch, or a collision is exhibited |
| `MerkleExact.RootExact` | src/block.rs:233-262 | for any two lists: one root exactly when, the deeper cut to the depth of the other, they look alike once padded; or two of the strings hashed for them collide |
| `MerkleExact.RootExactOneDepth` | src/block.rs:233-262 | for lists of one depth the condition compares leaves position by position and names no hash |
| `MerkleExact.BlockRootExact` | src/block.rs:233-262 | the same for the roots of two blocks, in terms of their transaction ids |
| `MerkleExact.EmptyBlockRoot` | src/block.rs:233-236 | a block shares the root of an empty one exactly when it is a single zero id or its topmost input hashes to zero |
| `MerkleExact.RootIsNode` | src/block.rs:246-261 | the root is the top of the padded tree built from the top down, each node the hash of its left child's bytes and then its right child's |
| `MerkleExact.BlockRootIsNode` | src/block.rs:233-262 | a block's root is that of its ids turned end to end, 32 zero bytes for none |
| `MerkleExact.RootBinds` | src/block.rs:233-262 | lists of one length with one root are equal, or two of the strings hashed collide |
| `MerkleExact.RepeatedTail` | src/block.rs:249-261 | a block whose size is no power of two shares its root with itself and its last 2^k transactions repeated, 2^k the power of two in its size, for every hash |
| `MerkleExact.OddBlockAmbiguous` | src/block.rs:249-261 | in particular an odd block with its last transaction repeated |
| `MerkleExact.PathFixes` | src/auxpow.rs:167-183 | a path of any depth and index that climbs to a root fixes the node it starts at, or a collision is exhibited |
| `MerkleExact.LeafAtLow` | src/auxpow.rs:167-183 | only as many low bits of the index count as the tree is deep |
| `AuxPow.FindCommitment` | src/auxpow.rs:140-163 | the scan returns the first whole commitment and fails only if there is none |
| `AuxPow.BuiltIsFound` | src/auxpow.rs:192-201 | a commitment built into a coinbase is the one found, if no earlier one stands there |
| `AuxPow.Validate` | src/auxpow.rs:65-135 | the checks accept exactly the proofs whose commitment, two Merkle climbs and work agree |
| `AuxPow.AcceptsExact` | src/auxpow.rs:65-135 | what the checks amount to, byte by byte: the first whole commitment, one chain and the turned hash or several and the turned climb with the index below the count, the coinbase climb equal to the parent's root field, depths up to 20, and the work |
| `AuxPow.ProofBindsHeader` | src/auxpow.rs:65-135 | one proof is accepted for one block header only, or a collision is exhibited |
| `AuxPow.ProofBindsCoinbase` | src/auxpow.rs:65-135 | an accepted proof, its path of any depth and index, fixes where in the parent block's tree its coinbase stands, or a collision is exhibited |
| `AuxPow.ProofBindsTransaction` | src/auxpow.rs:65-135 | with a path of the tree's depth and an index below the transaction count, the coinbase is that transaction, or a collision is exhibited |
| `AuxPow.AssembledAccepted` | src/auxpow.rs:65-135 | a proof assembled from the parent block, for one chain or for several under a common root, is accepted exactly when the parent's work suffices |
| `Reading.VarintRoundTrip` | src/auxpow.rs:203-254 | every 64-bit count reads back whatever follows |
| `AuxWire.ParseDigests` | src/auxpow.rs:296-309 | the loop reads the given number of digests or fails |
| `AuxWire.PathRoundTrip` | src/auxpow.rs:278-353 | a branch reads back exactly when it is no deeper than 20 |
| `AuxWire.ProofRoundTripIff` | src/auxpow.rs:257-353 | a proof reads back, using exactly its own bytes, if and only if it keeps to the limits |
| `Blocks.HeaderAcrossEras` | src/block.rs:117-218 | a header read in its own byte order comes back; in the other only its Merkle root is reversed |
| `Blocks.PeekAnyEra` | src/block.rs:152-160 | the parent hash can be peeked without knowing the height |
| `Blocks.ParseTail` | src/block.rs:412-421 | the loop over transactions and receipts computes the recursive reader |
| `Blocks.BlockRoundTripIff` | src/block.rs:400-448 | for any transaction codec that reads its own output back, the exact condition for a block to read back |
| `BlockTx.TxRoundTripIff` | src/tx.rs:1735-1812 | a transaction reads back, whatever follows, if and only if its counts fit their bytes |
| `BlockTx.NeverMarked` | src/tx.rs:169-182 | no transaction begins like a receipt section |
| `BlockTx.ChainBlockRoundTripIff` | src/block.rs:350-448 | at every height and for every pair of activation heights, the exact condition for a block of this chain to read back from its own bytes |
| `WireLayouts.HeaderLayout` | src/block.rs:117-150 | where the fields of a block header stand, parent hash turned, Merkle root turned only before activation |
| `WireLayouts.BlockLayout` | src/block.rs:382-448 | a block at a height: header turned as the height asks, proof, transactions and receipts, in this order |
| `WireLayouts.ProofExpected` | src/block.rs:400-448 | a proof is read exactly when bit 8 of the version is set and the height has reached activation |
| `WireLayouts.SpvHeaderLayout` | src/btc_spv.rs:61-95 | where the fields of a relayed header stand, all little-endian |
| `WireLayouts.BatchLayout` | src/btc_spv.rs:225-247 | tag, version, little-endian count and headers 80 bytes apart |
| `WireLayouts.BatchAccepted` | src/btc_spv.rs:249-280 | a script carries a batch exactly when it has the tag, version 1, a count from 1 to 2016 or 144, and that many times 80 bytes |
| `WireLayouts.AuxBitByte` | src/auxpow.rs:3-3 | bit 8 of the version is the low bit of its second byte on the wire |
| `WireLayouts.CommitmentLayout` | src/auxpow.rs:192-201 | magic, turned hash, chain count, nonce, at their offsets |
| `WireLayouts.PathLayout` | src/auxpow.rs:266-276 | a branch of up to 252 siblings: count byte, siblings 32 bytes apart, index |
| `WireLayouts.ProofLayout` | src/auxpow.rs:257-276 | coinbase behind its length, parent hash, both branches in order, parent header last |
| `WireLayouts.InputLayout` | src/tx.rs:126-135 | where the fields of an input stand |
| `WireLayouts.OutputLayout` | src/tx.rs:145-157 | where the fields of an output stand |
| `WireLayouts.TxLayout` | src/tx.rs:169-182 | version, count bytes modulo 256, inputs, outputs and locktime in their places |
| `ReceiptExt.SectionRoundTrip` | src/poawx.rs:973-1052 | every well-formed section of the ten kinds reads back, using its own bytes, whatever follows |
| `ReceiptExt.SectionExact` | src/poawx.rs:1124-1286 | the bytes a section reader takes are the encoding of the well-formed section it returns |
| `ReceiptExt.SectionsRoundTrip` | src/poawx.rs:1124-1286 | sections of distinct kinds are read back in whatever order they stand |
| `ReceiptExt.SectionsExact` | src/poawx.rs:1124-1286 | nothing but such a concatenation is accepted, and the order can be read off |
| `ReceiptExt.OrderIrrelevant` | src/poawx.rs:1110-1286 | two orders of the same sections decode to the same value |
| `ReceiptHead.ClaimBijective` | src/poawx.rs:394-470 | the claim decoder and encoder are inverse on all byte strings |
| `ReceiptHead.ExtAccepts` | src/poawx.rs:1056-1306 | every layout of head, flag and ordered sections is accepted with its value |
| `ReceiptHead.ExtExact` | src/poawx.rs:1056-1306 | nothing else is accepted |
| `ReceiptHead.ExtRoundTrip` | src/poawx.rs:936-1306 | every well-formed extension reads back as itself |
| `ReceiptHead.Reserialized` | src/poawx.rs:936-1306 | an accepted extension is well formed and keeps its value when written out again |
| `Receipts.ReceiptRoundTrip` | src/poawx.rs:1357-1494 | a receipt reads back in each of the three element formats that can carry it |
| `Receipts.SectionReads` | src/block.rs:269-346 | a section of n receipts followed by anything gives back its first n mod 256 receipts |
| `Receipts.SectionRoundTripIff` | src/block.rs:269-346 | the section round-trips, using exactly its own bytes, if and only if it has fewer than 256 receipts |
| `WireLayouts.BodyLayout` | src/poawx.rs:1443-1456 | where the fields of the 166 fixed bytes stand |
| `WireLayouts.V2Layout` | src/poawx.rs:1357-1370 | mode byte, body and delegation by offset |
| `WireLayouts.V3Layout` | src/poawx.rs:1400-1418 | the same, then a presence byte, a little-endian length and the extension |
| `WireLayouts.SectionLayout` | src/block.rs:269-298 | magic of the chosen form, count modulo 256, the receipts |
| `WireLayouts.MagicOf` | src/poawx.rs:48-63 | the three section magics spell POAWXR, 1 to 3, 0 |
| `WireLayouts.FormChosen` | src/block.rs:273-282 | the first form exactly without delegations and extensions, the third exactly with an extension |
| `WireLayouts.MagicTexts` | src/poawx.rs:973-1052 | the ten section magics as text |
| `WireLayouts.SectionMeans` | src/poawx.rs:1124-1286 | which sections of each kind are well formed: how many records, how wide, and what their decoder must accept |
| `WireLayouts.SectionSizes` | src/poawx.rs:973-1052 | how many bytes a well-formed section of each kind takes |
| `WireLayouts.RecordsAt` | src/poawx.rs:973-1052 | where counts, lengths and records of a section stand |
| `WireLayouts.ItemsAt` | src/poawx.rs:973-1052 | records of one width stand that far apart, in order |
| `WireLayouts.ClaimLayout` | src/poawx.rs:394-410 | length, fixed part, presence byte and commitment of a claim by offset |
| `WireLayouts.HeadLayout` | src/poawx.rs:936-960 | version, rewards, claims, fee and receiver of the head by offset |
| `WireLayouts.ExtLayout` | src/poawx.rs:936-1052 | head, precommit flag and then every section once, in the order of the ten kinds |
| `ReceiptParser.ParseItems` | src/poawx.rs:1133-1139 | the record loops read the given number of valid records or fail |
| `ReceiptParser.ParsePayload` | src/poawx.rs:1127-1282 | the four shapes of section body are read as defined |
| `ReceiptParser.ParseSections` | src/poawx.rs:1124-1286 | the section loop accepts and rejects exactly as the recursive reader |
| `ReceiptParser.ParseClaimBody` | src/poawx.rs:412-470 | the claim decoder accepts exact lengths only, as the bijection says |
| `ReceiptParser.ParseHead` | src/poawx.rs:1056-1091 | version, reward, three length-prefixed claims and fee terms are read by offset |
| `ReceiptParser.DeserializeExt` | src/poawx.rs:1056-1306 | the offset-driven parser, head, flag and sections, computes the extension reader |
| `ReceiptParser.ParseList` | src/block.rs:325-343 | the receipt loop reads the given number of elements or fails |
| `ReceiptParser.ParseReceipts` | src/block.rs:305-346 | no section, a broken one, or the receipts and the bytes used |
| `ReceiptParser.ChooseFormat` | src/block.rs:273-282 | the version is the plainest that carries every receipt |
| `ReceiptParser.SerializeReceipts` | src/block.rs:269-298 | the writing loop produces the section's bytes |
| `Sorting.SortedUnique` | src/poawx.rs:1720-1720 | a multiset has one sorted arrangement, so the sorting algorithm does not matter |
| `ReceiptsRoot.RolePrecommitRoot` | src/poawx.rs:574-582 | the hash of the leaves in byte-wise order |
| `ReceiptsRoot.PrecommitExact` | src/poawx.rs:572-582 | reordered leaves give one root, and one root means the same leaves or a collision |
| `ReceiptsRoot.SortedAscends` | src/poawx.rs:574-582 | what is hashed are the digests in ascending byte-wise order, put end to end |
| `ReceiptsRoot.ComputeAuditRoot` | src/poawx.rs:1688-1726 | the loop computes the root over receipts sorted by inner hash, extension ignored before phase 20 |
| `ReceiptsRoot.AuditLayout` | src/poawx.rs:1688-1719 | the inner hash is taken of the 166 body bytes, the digest of the delegation and that of the extension, each if there is one |
| `ReceiptsRoot.AuditOrderFree` | src/poawx.rs:1682-1726 | the audited root does not depend on the order of the receipts |
| `ReceiptsRoot.AuditBinds` | src/poawx.rs:1688-1726 | equal roots bind the same receipts, delegation and extension included, or two of the hashed strings collide |
| `ReceiptsRoot.AuditRootBinds` | src/poawx.rs:1671-1726 | the same for the gated root, where before phase 20 the extension is not bound |
| `LegacyRoot.LegacyDetermined` | src/poawx.rs:1728-1764 | with phase 20 on or off, the bytes hashed for the legacy root are a function of the receipts if and only if receipts with one sort key have one inner hash |
| `LegacyRoot.ComputeLegacyRoot` | src/poawx.rs:1728-1764 | sorting and hashing gives a root of some order the unstable sort allows |
| `LegacyRoot.ArrangedExact` | src/poawx.rs:1732-1739 | the sort may end exactly in the arrangements where no receipt comes before an earlier one by height, lane, worker and nonce |
| `LegacyRoot.LegacyLayout` | src/poawx.rs:1741-1760 | where height, lane, worker, solution and nonce stand in what the inner hash is taken of |
| `LegacyRoot.SignatureUnbound` | src/poawx.rs:1741-1760 | receipts that differ only in signer key and signature are hashed alike |
| `LegacyRoot.LegacyBinds` | src/poawx.rs:1728-1764 | equal legacy roots mean the same receipts up to signer key and signature, and before phase 20 up to the extension; or two of the strings hashed collide |
| `LegacyRoot.LegacyOrderFree` | src/poawx.rs:1728-1764 | under that condition reordering the receipts never changes the root |
| `LegacyRoot.DistinctKeysOneRoot` | src/poawx.rs:1728-1764 | receipts with distinct keys have one root in any order |
| `LegacyRoot.TwoRoots` | src/poawx.rs:1728-1764 | without it two roots can be computed for one list, unless the hash collides |
| `LegacyRoot.Ambiguous` | src/poawx.rs:1728-1764 | two outcomes the unstable sort allows, hashing different bytes, with phase 20 on or off |
| `LegacyRoot.SingleDiffers` | src/poawx.rs:1682-1726 | for a single receipt the audited and legacy roots, with phase 20 on or off, agree only by a collision |
| `BtcTx.ScriptForms` | src/btc_tx_parse.rs:94-125 | a script is recognised as a form exactly when it is that form's script |
| `BtcTx.ScriptsAll` | src/btc_tx_parse.rs:94-125 | every script is one of the three forms or is reported as none of them |
| `BtcTx.ReadVarint` | src/btc_tx_parse.rs:42-78 | the cursor reader computes the count and its length |
| `BtcTx.ParseBtcTxOutputs` | src/btc_tx_parse.rs:130-217 | the nested cursor loops compute the output list of the reader that `BtcWire.ParsesIff` pins down, or fail on anything left over |
| `BtcTx.BtcTxid` | src/btc_tx_parse.rs:223-289 | the id is the hash of the bytes without marker, flag and witnesses |
| `BtcTx.StripAgrees` | src/btc_tx_parse.rs:130-289 | every accepted SegWit transaction has a stripped form accepted as legacy with the same outputs and the same id |
| `BtcTx.WitnessAdds` | src/btc_tx_parse.rs:130-289 | a legacy transaction with any readable witness added keeps its outputs and id |
| `BtcWire.SpelledIsParsed` | src/btc_tx_parse.rs:130-289 | what any transaction spells, legacy or SegWit, is parsed to its outputs' values and scripts in order, numbered from zero, and its id is the hash of what it spells without witness |
| `BtcWire.ParsedIsSpelled` | src/btc_tx_parse.rs:130-217 | every byte string the parser accepts is spelled by some transaction, which is returned |
| `BtcWire.ParsesIff` | src/btc_tx_parse.rs:130-217 | the parser accepts exactly the transactions of at most 4000000 bytes that the format spells, counts of 1 to 100000 in any width, with exactly their outputs |
| `BtcWire.TrailingIgnored` | src/btc_tx_parse.rs:223-289 | the id of a SegWit transaction ignores any bytes that follow it |
| `Candidates.BetterTransitive` | src/poawx_candidate.rs:385-396 | ranking is transitive |
| `Candidates.BetterTotal` | src/poawx_candidate.rs:385-396 | candidates of one role with different keys are ranked one way or the other |
| `Candidates.BetterAsymmetric` | src/poawx_candidate.rs:385-396 | and never both ways |
| `Candidates.BetterExact` | src/poawx_candidate.rs:385-396 | not ranking above means a lower score, or the same and a no smaller proof digest, then worker, then ticket, byte by byte |
| `Candidates.KeyExact` | src/poawx_candidate.rs:423-436 | the canonical order is the byte-wise order of role, worker, ticket and proof digest put together |
| `Candidates.IsCanonical` | src/poawx_candidate.rs:429-436 | the pairwise scan decides strict order of the whole list |
| `Candidates.CanonicalIff` | src/poawx_candidate.rs:423-436 | a sorted list is canonical exactly when its keys are distinct |
| `Candidates.SortCanonical` | src/poawx_candidate.rs:423-427 | arrangements of the same candidates with distinct keys sort to one canonical list |
| `Candidates.BestForRole` | src/poawx_candidate.rs:497-507 | the loop returns the first candidate of the role with the highest score and, among those, the least proof digest, worker and ticket, none only if the role has none, and with distinct keys the one that beats all others |
| `Candidates.BestOrderFree` | src/poawx_candidate.rs:497-507 | with distinct keys its answer, absence included, does not depend on list order |
| `Candidates.WinnerUnique` | src/poawx_candidate.rs:497-507 | the winner is unique and does not depend on list order |
| `CandidateSets.CandidateRoundTrip` | src/poawx_candidate.rs:269-326 | a candidate survives its 175-byte form |
| `WireLayouts.CandidateLayout` | src/poawx_candidate.rs:269-290 | where the fields of a candidate's 175 bytes stand |
| `WireLayouts.SetLayout` | src/poawx_candidate.rs:438-450 | network, height, seed, count and candidates 175 bytes apart |
| `CandidateSets.ParseList` | src/poawx_candidate.rs:472-478 | the loop decodes the list |
| `CandidateSets.SetRoundTripIff` | src/poawx_candidate.rs:438-485 | a set reads back exactly when it has at most 256 candidates, and a larger one is rejected |
| `CandidateSets.SetExact` | src/poawx_candidate.rs:451-485 | what the decoder takes is the encoding of the set it returns |
| `CandidateSets.SetInjective` | src/poawx_candidate.rs:438-450 | sets with one encoding are one set, though the count is cut to 16 bits |
| `CandidateSets.FitsIff` | src/poawx_committed_admission.rs:110-226 | a commitment fits a set exactly when it is the one made from it, field by field, with the count saturated |
| `CandidateSets.CommitmentBinds` | src/poawx_committed_admission.rs:110-226 | a commitment fits its own set, and two sets that fit one commitment are equal or a collision is exhibited |
| `CandidateSets.SameWinners` | src/poawx_committed_admission.rs:220-226 | for two sets that fit one commitment best_for_role answers alike for every role, absence included, or a collision is exhibited |
| `AdmissionLimiter.Limiter.Allowed` | src/poawx_admission.rs:140-183 | the in-place update takes the table and the answer to those of the step function |
| `AdmissionLimiter.UnderTwiceTheLimit` | src/poawx_admission.rs:140-183 | with the cooldown off or no shorter than the window, every source gets less than twice the limit through in less than a window, pruning included |
| `AdmissionExact.SecondWindow` | src/poawx_admission.rs:167-182 | a run, for every setting, in which one under twice the limit pass within two instants |
| `AdmissionExact.ShortCooldown` | src/poawx_admission.rs:158-182 | with a shorter cooldown a run that does is built |
| `AdmissionExact.LimitExact` | src/poawx_admission.rs:140-183 | the bound holds on all runs if and only if the cooldown is off or at least the window; then one under twice the limit is the exact maximum; no setting has a lower one |
| `AdmissionExact.NoSlidingLimit` | src/poawx_admission.rs:136-139 | the limit itself is kept per sliding window under no setting |
| `AdmissionExact.HonestKept` | src/poawx_admission.rs:136-139 | a source that never asks more than the limit within less than a window is never dropped, whatever the others do |
| `AdmissionExact.OthersExact` | src/poawx_admission.rs:146-151 | a request leaves other sources' entries alone, except that above 8192 entries exactly those go that are neither cooling down nor in an open window |
| `AdmissionExact.CooldownHolds` | src/poawx_admission.rs:146-162 | in any run, through pruning, a source in cooldown is turned away and its entry unchanged until the cooldown ends |
| `AdmissionExact.CooldownEnds` | src/poawx_admission.rs:158-166 | the next request after that is let through into a new window with no strikes |
| `AdmissionExact.WindowEnds` | src/poawx_admission.rs:167-173 | the first request after a window starts a new one, with strikes forgiven exactly if the old one kept to the limit |
| `Emission.CountStep` | src/constants.rs:95-112 | from block to block the halving count stays or rises by one, and it stays across the fork |
| `Emission.CountExact` | src/constants.rs:95-112 | no halving at genesis, and one at each k × 210000 + 1 up to the fork and each fork + k × 1050000 + 1 after it |
| `Emission.RewardExact` | src/constants.rs:114-123 | the reward is 50 coins divided by two to the number of halvings, rounded down, and none at genesis |
| `Emission.ScheduleMonotone` | src/constants.rs:95-123 | the count never falls and the reward never rises |
| `Emission.IssuedBounded` | src/constants.rs:114-123 | wherever the fork lies, all subsidies together stay within INITIAL_SUBSIDY × (2·V1 + 2·V2) |

## Left out

- Networking, files, clocks, environment variables and activation lookup: times, heights and settings are parameters, and saving the mempool is taken to succeed.
- SHA-256, scrypt, ECDSA and VRF internals: hash functions and predicates are parameters.
- Error texts: only which check fails is kept, and only where callers can tell.
- Heights are unbounded naturals; 64-bit overflow of a height is not modelled.
- Fee per byte is an exact ratio, not a 64-bit float, and eviction among equally ranked entries may pick any of them, as hash-map order does.
- Offsets in the Bitcoin transaction parser are naturals; machine overflow for huge counts is not modelled.
- Compact bits are proved for targets below 256^254, where the exponent still fits its byte.
- RelayRuns.RunIsReplay: disconnects undo the latest standing connect, as block disconnection does; undo in another order is not modelled.
- AdmissionLimiter.UnderTwiceTheLimit: requests are taken in clock order; a thread that reads the clock and then waits for the lock behind a later one is not modelled.
- Records inside the receipt extension that other files define travel as their wire bytes with a predicate for what their decoders accept; their own fields are not modelled, except candidate sets, whose codec is `CandidateSets`.
- CandidateSets.CommitmentBinds: commit height, window id and the commitment's own digest take no part in matching and are left out.
- Scores and penalties of candidates: the effective score is a field; how it is computed is arithmetic on three factors.
- Receipt validation against the chain, role lanes, fees and reward splits: separate checks with little state.
- The second receipts-root implementation in the iriumd binary, which works on hex fields.
- Loading the admission cache and the mempool from disk.
- Emission against MAX_MONEY: what caps it is outside `src/constants.rs`.
