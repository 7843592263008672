/** Merge-mining proofs of src/auxpow.rs: what an accepted proof commits to, and its wire form.
    The hash is a parameter and stands for sha256d; the parent's proof of work is a predicate. */
module AuxPow {
  import opened Basics
  import opened Reading
  import opened Merkle
  import opened MerkleExact

  const COMMIT_MAGIC: Bytes := [0xfa, 0xbe, 0x6d, 0x6d]
  const MAX_BRANCH_DEPTH: nat := 20
  const MAX_COINBASE: nat := 1_000_000

  datatype Path = Path(siblings: seq<Digest>, index: u32)

  datatype Proof = Proof(coinbase: Bytes, parentHash: Digest, coinbasePath: Path, chainPath: Path, parentHeader: Bytes)

  // ---------- the commitment in the coinbase ----------

  datatype Commitment = Commitment(root: Bytes, chains: u32)

  predicate MagicAt(coinbase: Bytes, i: nat) {
    i + 40 <= |coinbase| && coinbase[i..i + 4] == COMMIT_MAGIC
  }

  function CommitmentAt(coinbase: Bytes, i: nat): Commitment
    requires i + 40 <= |coinbase|
  {
    Commitment(coinbase[i + 4..i + 36], Word32(coinbase[i + 36..i + 40]))
  }

  /** The first place, from i on, where a whole commitment stands. */
  function Search(coinbase: Bytes, i: nat): Option<Commitment>
    decreases |coinbase| - i
  {
    if i + 40 > |coinbase| then None
    else if MagicAt(coinbase, i) then Some(CommitmentAt(coinbase, i))
    else Search(coinbase, i + 1)
  }

  /** find_commitment. */
  method FindCommitment(coinbase: Bytes) returns (found: Option<Commitment>)
    ensures found == Search(coinbase, 0)
    ensures found.None? <==> forall i: nat :: !MagicAt(coinbase, i)
  {
    if |coinbase| < 40 { return None; }
    var limit := |coinbase| - 39;
    for i := 0 to limit
      invariant forall k | 0 <= k < i :: !MagicAt(coinbase, k)
      invariant Search(coinbase, i) == Search(coinbase, 0)
    {
      hide Word32;
      if coinbase[i..i + 4] == COMMIT_MAGIC {
        assert MagicAt(coinbase, i);
        return Some(CommitmentAt(coinbase, i));
      }
    }
    found := None;
  }

  function BuildCommitment(auxHash: Digest, chains: u32, nonce: u32): Bytes {
    COMMIT_MAGIC + (Reversed(auxHash) + (LeBytes(chains, 4) + LeBytes(nonce, 4)))
  }

  lemma {:induction false} SearchSkips(coinbase: Bytes, i: nat, k: nat)
    requires i <= k && MagicAt(coinbase, k) && forall j | i <= j < k :: !MagicAt(coinbase, j)
    ensures Search(coinbase, i) == Some(CommitmentAt(coinbase, k))
    decreases k - i
  {
    hide Word32;
    if i < k { SearchSkips(coinbase, i + 1, k); }
  }

  /** A commitment put into a coinbase is the one found, if no earlier one stands there. */
  lemma BuiltIsFound(pre: Bytes, auxHash: Digest, chains: u32, nonce: u32, post: Bytes)
    requires var coinbase := (pre + BuildCommitment(auxHash, chains, nonce)) + post;
             forall j | 0 <= j < |pre| :: !MagicAt(coinbase, j)
    ensures Search((pre + BuildCommitment(auxHash, chains, nonce)) + post, 0) == Some(Commitment(Reversed(auxHash), chains))
  {
    hide LeBytes, LeValue;
    var coinbase, i := (pre + BuildCommitment(auxHash, chains, nonce)) + post, |pre|;
    var rest := coinbase[i..];
    assert rest == COMMIT_MAGIC + (Reversed(auxHash) + (LeBytes(chains, 4) + (LeBytes(nonce, 4) + post)));
    assert rest[..4] == COMMIT_MAGIC && rest[4..36] == Reversed(auxHash) && rest[36..40] == LeBytes(chains, 4);
    assert coinbase[i..i + 4] == rest[..4] && coinbase[i + 4..i + 36] == rest[4..36];
    assert coinbase[i + 36..i + 40] == rest[36..40];
    Pow256Values();
    LeRoundTrip(chains, 4);
    SearchSkips(coinbase, 0, i);
  }

  // ---------- acceptance ----------

  /** validate_with_parent_hash. */
  predicate Accepts(h: Hasher, pow: Bytes -> bool, ap: Proof, aux: Bytes)
    requires |ap.parentHeader| == 80
  {
    |aux| == 80 &&
    |ap.coinbasePath.siblings| <= MAX_BRANCH_DEPTH && |ap.chainPath.siblings| <= MAX_BRANCH_DEPTH &&
    Search(ap.coinbase, 0).Some? &&
    Commits(h, ap, Search(ap.coinbase, 0).value, h(aux)) &&
    Climb(h, h(ap.coinbase), ap.coinbasePath.siblings, ap.coinbasePath.index) == ap.parentHeader[36..68] &&
    pow(ap.parentHeader)
  }

  predicate Commits(h: Hasher, ap: Proof, c: Commitment, auxHash: Digest) {
    if c.chains == 0 then false
    else if c.chains == 1 then c.root == Reversed(auxHash)
    else
      ap.chainPath.index < c.chains &&
      c.root == Reversed(Climb(h, auxHash, ap.chainPath.siblings, ap.chainPath.index))
  }

  method Validate(h: Hasher, pow: Bytes -> bool, ap: Proof, aux: Bytes) returns (ok: bool)
    requires |ap.parentHeader| == 80
    ensures ok == Accepts(h, pow, ap, aux)
  {
    if |aux| != 80 { return false; }
    if |ap.coinbasePath.siblings| > MAX_BRANCH_DEPTH || |ap.chainPath.siblings| > MAX_BRANCH_DEPTH { return false; }
    var found := FindCommitment(ap.coinbase);
    if found.None? || found.value.chains == 0 { return false; }
    if found.value.chains == 1 {
      if found.value.root != Reversed(h(aux)) { return false; }
    } else {
      if ap.chainPath.index >= found.value.chains { return false; }
      var root := ComputeMerkleRoot(h, h(aux), ap.chainPath.siblings, ap.chainPath.index);
      if Reversed(root) != found.value.root { return false; }
    }
    var txRoot := ComputeMerkleRoot(h, h(ap.coinbase), ap.coinbasePath.siblings, ap.coinbasePath.index);
    ok := txRoot == ap.parentHeader[36..68] && pow(ap.parentHeader);
  }

  /** A whole commitment stands at i: four bytes of magic and at least 36 more. */
  predicate HasMagic(coinbase: Bytes, i: nat) {
    i + 40 <= |coinbase| &&
    coinbase[i] == 0xfa && coinbase[i + 1] == 0xbe && coinbase[i + 2] == 0x6d && coinbase[i + 3] == 0x6d
  }

  ghost predicate FirstMagic(coinbase: Bytes, i: nat) {
    HasMagic(coinbase, i) && forall j: nat | j < i :: !HasMagic(coinbase, j)
  }

  lemma MagicBytes(coinbase: Bytes, i: nat)
    ensures MagicAt(coinbase, i) <==> HasMagic(coinbase, i)
  {
    if i + 40 <= |coinbase| {
      var m := coinbase[i..i + 4];
      assert m == [m[0], m[1], m[2], m[3]];
    }
  }

  lemma {:induction false} SearchExact(coinbase: Bytes, i: nat)
    requires forall j: nat | j < i :: !HasMagic(coinbase, j)
    ensures match Search(coinbase, i)
            case None => !exists k: nat :: HasMagic(coinbase, k)
            case Some(c) => exists k: nat :: FirstMagic(coinbase, k) && c == CommitmentAt(coinbase, k)
    decreases |coinbase| - i
  {
    hide Word32, HasMagic;
    MagicBytes(coinbase, i);
    if i + 40 > |coinbase| {
      NoRoom(coinbase, i);
    } else if MagicAt(coinbase, i) {
      assert FirstMagic(coinbase, i);
    } else {
      SearchExact(coinbase, i + 1);
    }
  }

  lemma NoRoom(coinbase: Bytes, i: nat)
    requires i + 40 > |coinbase|
    ensures forall k: nat | k >= i :: !HasMagic(coinbase, k)
  {}

  /** The two hashes are one read from either end. */
  ghost predicate Turns(a: Bytes, b: Bytes) {
    |a| == 32 && |b| == 32 && forall k | 0 <= k < 32 :: a[k] == b[31 - k]
  }

  lemma ReversedTurns(a: Bytes, b: Digest)
    requires |a| == 32
    ensures a == Reversed(b) <==> Turns(a, b)
  {
    if Turns(a, b) {
      forall k | 0 <= k < 32
        ensures a[k] == Reversed(b)[k]
      {}
    }
  }

  /** A proof is accepted exactly when the first commitment in the coinbase names one chain and the
      header's hash, or more chains and the hash its path climbs to; the coinbase path climbs to the
      Merkle root in the parent header; no path is deeper than 20; and the parent has its work. */
  lemma AcceptsExact(h: Hasher, pow: Bytes -> bool, ap: Proof, aux: Bytes)
    requires |ap.parentHeader| == 80
    ensures Accepts(h, pow, ap, aux) <==>
            |aux| == 80 && |ap.coinbasePath.siblings| <= 20 && |ap.chainPath.siblings| <= 20 &&
            (exists i: nat :: FirstMagic(ap.coinbase, i) &&
               var root, chains := ap.coinbase[i + 4..i + 36], LeValue(ap.coinbase[i + 36..i + 40]);
               chains > 0 &&
               if chains == 1 then Turns(root, h(aux))
               else ap.chainPath.index < chains && Turns(root, Climb(h, h(aux), ap.chainPath.siblings, ap.chainPath.index))) &&
            Climb(h, h(ap.coinbase), ap.coinbasePath.siblings, ap.coinbasePath.index) == ap.parentHeader[36..68] &&
            pow(ap.parentHeader)
  {
    hide Climb, LeValue, Search, Reversed;
    SearchExact(ap.coinbase, 0);
    forall i: nat | FirstMagic(ap.coinbase, i)
      ensures Search(ap.coinbase, 0) == Some(CommitmentAt(ap.coinbase, i))
    {
      assert Search(ap.coinbase, 0).Some?;
      var k: nat :| FirstMagic(ap.coinbase, k) && Search(ap.coinbase, 0).value == CommitmentAt(ap.coinbase, k);
      assert i == k;
    }
    if Search(ap.coinbase, 0).Some? {
      var c := Search(ap.coinbase, 0).value;
      ReversedTurns(c.root, h(aux));
      ReversedTurns(c.root, Climb(h, h(aux), ap.chainPath.siblings, ap.chainPath.index));
    }
  }

  /** Two strings hashed on behalf of two headers under one proof. */
  function HeaderClash(h: Hasher, ap: Proof, a: Bytes, b: Bytes): (Bytes, Bytes) {
    if h(a) == h(b) then (a, b)
    else BranchClash(h, h(a), ap.chainPath.siblings, h(b), ap.chainPath.siblings, ap.chainPath.index)
  }

  /** One proof is accepted for one header only, or the hash collides. */
  lemma ProofBindsHeader(h: Hasher, pow: Bytes -> bool, ap: Proof, a: Bytes, b: Bytes)
    requires |ap.parentHeader| == 80 && Accepts(h, pow, ap, a) && Accepts(h, pow, ap, b)
    ensures a == b || Collides(h, HeaderClash(h, ap, a, b))
  {
    hide Search, Climb, Reversed;
    var c := Search(ap.coinbase, 0).value;
    if c.chains == 1 {
      ReversedInjective(h(a), h(b));
    } else {
      var path := ap.chainPath;
      ReversedInjective(Climb(h, h(a), path.siblings, path.index), Climb(h, h(b), path.siblings, path.index));
      ClimbBinds(h, h(a), path.siblings, h(b), path.siblings, path.index);
    }
  }

  /** An accepted proof, with a path of whatever depth and index, fixes where in the parent block's
      tree its coinbase stands, or two of the strings hashed collide. */
  lemma ProofBindsCoinbase(h: Hasher, pow: Bytes -> bool, ap: Proof, aux: Bytes, txs: seq<Digest>)
    returns (a: Bytes, b: Bytes)
    requires |ap.parentHeader| == 80 && Accepts(h, pow, ap, aux)
    requires txs != [] && ap.parentHeader[36..68] == Root(h, txs)
    ensures var path := ap.coinbasePath;
            StartsAt(h, txs, h(ap.coinbase), path.siblings, path.index) ||
            PathClash(h, h(ap.coinbase), path.siblings, path.index, txs, a, b)
  {
    hide Search, Commits, StartsAt, PathClash;
    a, b := PathFixes(h, txs, h(ap.coinbase), ap.coinbasePath.siblings, ap.coinbasePath.index);
  }

  /** With the depth of the parent's tree and an index into it, the coinbase is that transaction. */
  lemma ProofBindsTransaction(h: Hasher, pow: Bytes -> bool, ap: Proof, aux: Bytes, txs: seq<Digest>)
    returns (a: Bytes, b: Bytes)
    requires |ap.parentHeader| == 80 && Accepts(h, pow, ap, aux)
    requires ap.coinbasePath.index < |txs| && ap.parentHeader[36..68] == Root(h, txs)
    requires |ap.coinbasePath.siblings| == Depth(|txs|)
    ensures var path := ap.coinbasePath;
            h(ap.coinbase) == txs[path.index] || PathClash(h, h(ap.coinbase), path.siblings, path.index, txs, a, b)
  {
    hide Search, Commits, PathClash, LeafAt;
    a, b := ProofBindsCoinbase(h, pow, ap, aux, txs);
    LeafAtSelf(|txs|, ap.coinbasePath.index);
  }

  /** What a miner of several chains commits to: its own hash, or the root of the tree of all the
      chains' hashes in which its own stands at the proof's index. */
  ghost predicate Combines(h: Hasher, ap: Proof, chains: u32, auxHash: Digest, slots: seq<Digest>, top: Digest) {
    if chains == 1 then top == auxHash
    else
      ap.chainPath.index < chains && ap.chainPath.index < |slots| && slots[ap.chainPath.index] == auxHash &&
      ap.chainPath.siblings == Branch(h, slots, ap.chainPath.index) && top == Root(h, slots)
  }

  /** The proof a miner assembles, for one chain or for several, is accepted exactly when the
      parent's work suffices. */
  lemma AssembledAccepted(h: Hasher, pow: Bytes -> bool, aux: Bytes, ap: Proof, chains: u32, slots: seq<Digest>,
                          top: Digest, pre: Bytes, nonce: u32, post: Bytes, txs: seq<Digest>)
    requires |aux| == 80 && |ap.parentHeader| == 80 && chains > 0
    requires Combines(h, ap, chains, h(aux), slots, top)
    requires ap.coinbase == (pre + BuildCommitment(top, chains, nonce)) + post
    requires forall j | 0 <= j < |pre| :: !MagicAt(ap.coinbase, j)
    requires ap.coinbasePath.index < |txs| && txs[ap.coinbasePath.index] == h(ap.coinbase)
    requires ap.parentHeader[36..68] == Root(h, txs) && Depth(|txs|) <= MAX_BRANCH_DEPTH
    requires ap.coinbasePath.siblings == Branch(h, txs, ap.coinbasePath.index)
    requires |ap.chainPath.siblings| <= MAX_BRANCH_DEPTH
    ensures Accepts(h, pow, ap, aux) <==> pow(ap.parentHeader)
  {
    hide BuildCommitment, MagicAt;
    BuiltIsFound(pre, top, chains, nonce, post);
    hide Search, Climb, Root, Reversed;
    BranchComplete(h, txs, ap.coinbasePath.index);
    if chains > 1 { BranchComplete(h, slots, ap.chainPath.index); }
  }
}
