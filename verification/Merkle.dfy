/** Block::merkle_root of src/block.rs against compute_merkle_root of src/auxpow.rs.
    The hash function is a parameter. Results that rest on its strength name two inputs,
    found among those actually hashed, on which it would have to collide. */
module Merkle {
  import opened Basics

  type Digest = b: seq<byte> | |b| == 32 witness seq(32, i => 0)

  type Hasher = seq<byte> -> Digest

  function Zero(): Digest {
    seq<byte>(32, i => 0)
  }

  // ---------- the tree ----------

  function Join(a: Digest, b: Digest): (pair: seq<byte>)
    ensures |pair| == 64
  {
    var left: seq<byte>, right: seq<byte> := a, b;
    left + right
  }

  /** The two children under node i of the next level; an odd level repeats its last node. */
  function PairAt(xs: seq<Digest>, i: nat): (pair: seq<byte>)
    requires 2 * i < |xs|
    ensures |pair| == 64
  {
    Join(xs[2 * i], if 2 * i + 1 < |xs| then xs[2 * i + 1] else xs[2 * i])
  }

  function Level(h: Hasher, xs: seq<Digest>): (ys: seq<Digest>)
    ensures |ys| == (|xs| + 1) / 2
  {
    seq<Digest>((|xs| + 1) / 2, i requires 0 <= i < (|xs| + 1) / 2 => h(PairAt(xs, i)))
  }

  function Root(h: Hasher, xs: seq<Digest>): Digest
    requires xs != []
    decreases |xs|
  {
    if |xs| == 1 then xs[0] else Root(h, Level(h, xs))
  }

  function Depth(n: nat): nat {
    if n <= 1 then 0 else 1 + Depth((n + 1) / 2)
  }

  /** The siblings of leaf i on the way up. */
  function Branch(h: Hasher, xs: seq<Digest>, i: nat): (branch: seq<Digest>)
    requires i < |xs|
    ensures |branch| == Depth(|xs|)
    decreases |xs|
  {
    if |xs| == 1 then [] else [Sibling(xs, i)] + Branch(h, Level(h, xs), i / 2)
  }

  function Sibling(xs: seq<Digest>, i: nat): Digest
    requires i < |xs|
  {
    if i % 2 == 1 then xs[i - 1] else if i + 1 < |xs| then xs[i + 1] else xs[i]
  }

  // ---------- climbing a branch ----------

  /** A node and its sibling in the order the index bit asks for. */
  function Ordered(node: Digest, sibling: Digest, index: nat): (pair: seq<byte>)
    ensures |pair| == 64
  {
    if index % 2 == 0 then Join(node, sibling) else Join(sibling, node)
  }

  function Climb(h: Hasher, leaf: Digest, branch: seq<Digest>, index: nat): Digest
    decreases |branch|
  {
    if branch == [] then leaf
    else Climb(h, h(Ordered(leaf, branch[0], index)), branch[1..], index / 2)
  }

  /** compute_merkle_root. */
  method ComputeMerkleRoot(h: Hasher, leaf: Digest, branch: seq<Digest>, index: u32) returns (root: Digest)
    ensures root == Climb(h, leaf, branch, index)
  {
    root := leaf;
    var idx: nat := index;
    for k := 0 to |branch|
      invariant Climb(h, root, branch[k..], idx) == Climb(h, leaf, branch, index)
    {
      assert branch[k..][1..] == branch[k + 1..];
      if idx % 2 == 0 {
        root := h(Join(root, branch[k]));
      } else {
        root := h(Join(branch[k], root));
      }
      idx := idx / 2;
    }
  }

  function Reversed(d: seq<byte>): (r: seq<byte>)
    ensures |r| == |d|
  {
    seq(|d|, i requires 0 <= i < |d| => d[|d| - 1 - i])
  }

  lemma ReversedInjective(a: seq<byte>, b: seq<byte>)
    ensures Reversed(a) == Reversed(b) <==> a == b
  {
    if Reversed(a) == Reversed(b) {
      forall i | 0 <= i < |a|
        ensures a[i] == b[i]
      {
        assert Reversed(a)[|a| - 1 - i] == Reversed(b)[|a| - 1 - i];
      }
    }
  }

  /** The leaves of a block: its transaction ids in reversed byte order. */
  function Leaves(txids: seq<Digest>): (xs: seq<Digest>)
    ensures |xs| == |txids|
  {
    seq(|txids|, i requires 0 <= i < |txids| => Reversed(txids[i]))
  }

  /** The root of a block: zero for no transactions. */
  function BlockRoot(h: Hasher, txids: seq<Digest>): Digest {
    if txids == [] then Zero() else Root(h, Leaves(txids))
  }

  /** Block::merkle_root. */
  method MerkleRoot(h: Hasher, txids: seq<Digest>) returns (root: Digest)
    ensures root == BlockRoot(h, txids)
  {
    if txids == [] {
      return Zero();
    }
    var leaves := Leaves(txids);
    while |leaves| > 1
      invariant leaves != [] && Root(h, leaves) == Root(h, Leaves(txids))
      decreases |leaves|
    {
      ghost var before := leaves;
      if |leaves| % 2 == 1 {
        leaves := leaves + [leaves[|leaves| - 1]];
      }
      var next: seq<Digest> := [];
      for k := 0 to |leaves| / 2
        invariant next == Level(h, before)[..k]
      {
        assert Join(leaves[2 * k], leaves[2 * k + 1]) == PairAt(before, k);
        next := next + [h(Join(leaves[2 * k], leaves[2 * k + 1]))];
      }
      assert next == Level(h, before);
      leaves := next;
    }
    root := leaves[0];
  }

  // ---------- completeness ----------

  lemma ParentOf(h: Hasher, xs: seq<Digest>, i: nat)
    requires i < |xs| && |xs| > 1
    ensures h(Ordered(xs[i], Sibling(xs, i), i)) == Level(h, xs)[i / 2]
  {
    assert Ordered(xs[i], Sibling(xs, i), i) == PairAt(xs, i / 2);
  }

  /** For every leaf of every block, its sibling branch climbs to the block's Merkle root. */
  lemma {:induction false} BranchComplete(h: Hasher, xs: seq<Digest>, i: nat)
    requires i < |xs|
    ensures Climb(h, xs[i], Branch(h, xs, i), i) == Root(h, xs)
    decreases |xs|
  {
    if |xs| > 1 {
      ParentOf(h, xs, i);
      BranchComplete(h, Level(h, xs), i / 2);
      assert Branch(h, xs, i)[1..] == Branch(h, Level(h, xs), i / 2);
    }
  }

  // ---------- soundness ----------

  predicate Collides(h: Hasher, pair: (seq<byte>, seq<byte>)) {
    pair.0 != pair.1 && h(pair.0) == h(pair.1)
  }

  /** The first pair of node inputs, going up two branches side by side, that differ and hash alike. */
  function BranchClash(h: Hasher, a: Digest, ss: seq<Digest>, b: Digest, ts: seq<Digest>, index: nat): (seq<byte>, seq<byte>)
    requires |ss| == |ts|
    decreases |ss|
  {
    if ss == [] then (a, b) else
      var pair := (Ordered(a, ss[0], index), Ordered(b, ts[0], index));
      if Collides(h, pair) then pair
      else BranchClash(h, h(pair.0), ss[1..], h(pair.1), ts[1..], index / 2)
  }

  lemma OrderedInjective(a: Digest, s: Digest, b: Digest, t: Digest, index: nat)
    requires Ordered(a, s, index) == Ordered(b, t, index)
    ensures a == b && s == t
  {
    var x, y := Ordered(a, s, index), Ordered(b, t, index);
    assert x[..32] == y[..32] && x[32..] == y[32..];
    if index % 2 == 0 {
      assert x[..32] == a && y[..32] == b && x[32..] == s && y[32..] == t;
    } else {
      assert x[..32] == s && y[..32] == t && x[32..] == a && y[32..] == b;
    }
  }

  lemma {:induction false} ClimbBinds(h: Hasher, a: Digest, ss: seq<Digest>, b: Digest, ts: seq<Digest>, index: nat)
    requires |ss| == |ts| && Climb(h, a, ss, index) == Climb(h, b, ts, index)
    ensures (a == b && ss == ts) || Collides(h, BranchClash(h, a, ss, b, ts, index))
    decreases |ss|
  {
    if ss != [] {
      var x, y := Ordered(a, ss[0], index), Ordered(b, ts[0], index);
      if !Collides(h, (x, y)) {
        ClimbBinds(h, h(x), ss[1..], h(y), ts[1..], index / 2);
        if x == y {
          OrderedInjective(a, ss[0], b, ts[0], index);
          assert ss == [ss[0]] + ss[1..] && ts == [ts[0]] + ts[1..];
        }
      }
    }
  }

  /** A branch of the right depth that climbs from index i to the block's root starts at leaf i
      and is its sibling branch, or exhibits a hash collision. */
  lemma BranchSound(h: Hasher, xs: seq<Digest>, i: nat, leaf: Digest, branch: seq<Digest>)
    requires i < |xs| && |branch| == Depth(|xs|) && Climb(h, leaf, branch, i) == Root(h, xs)
    ensures (leaf == xs[i] && branch == Branch(h, xs, i)) ||
            Collides(h, BranchClash(h, leaf, branch, xs[i], Branch(h, xs, i), i))
  {
    BranchComplete(h, xs, i);
    ClimbBinds(h, leaf, branch, xs[i], Branch(h, xs, i), i);
  }
}
