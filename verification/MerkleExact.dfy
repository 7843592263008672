/** Exactly when two transaction lists have one Merkle root, and what a path of any depth says
    about a tree. An odd level repeats its last node, so a list is bound only up to that padding. */
module MerkleExact {
  import opened Basics
  import opened Merkle

  // ---------- the padded tree ----------

  function Pow2(d: nat): (p: nat)
    ensures p > 0
  {
    if d == 0 then 1 else 2 * Pow2(d - 1)
  }

  function Half(n: nat): nat { (n + 1) / 2 }

  /** The leaf, of n, that stands at position j at the foot of the padded tree of depth d: turn by
      the bits of j from the top, and stay on the last node of a level where the next is missing. */
  function LeafAt(n: nat, d: nat, j: nat): (i: nat)
    requires n > 0
    ensures i < n
    decreases d
  {
    if d == 0 then 0 else Child(n, LeafAt(Half(n), d - 1, j / 2), j % 2)
  }

  /** The child of node p on side b, or the last of the n nodes of its level. */
  function Child(n: nat, p: nat, b: nat): (i: nat)
    requires n > 0
    ensures i < n
  {
    if 2 * p + b < n then 2 * p + b else n - 1
  }

  /** Two lists of one depth that look alike once padded. No hash is involved. */
  ghost predicate SameTree(xs: seq<Digest>, ys: seq<Digest>)
    requires xs != [] && ys != []
  {
    var d := Depth(|xs|);
    Depth(|ys|) == d && forall j: nat | j < Pow2(d) :: xs[LeafAt(|xs|, d, j)] == ys[LeafAt(|ys|, d, j)]
  }

  /** The low d bits of j. */
  function LowBits(j: nat, d: nat): (r: nat)
    ensures r < Pow2(d)
    decreases d
  {
    if d == 0 then 0 else 2 * LowBits(j / 2, d - 1) + j % 2
  }

  /** Only the low d bits of a position count. */
  lemma {:induction false} LeafAtLow(n: nat, d: nat, j: nat)
    requires n > 0
    ensures LeafAt(n, d, j) == LeafAt(n, d, LowBits(j, d))
    decreases d
  {
    hide Child;
    if d == 0 {
    } else {
      LeafAtLow(Half(n), d - 1, j / 2);
    }
  }

  /** Positions of the list itself are its own leaves. */
  lemma {:induction false} LeafAtSelf(n: nat, j: nat)
    requires j < n
    ensures LeafAt(n, Depth(n), j) == j
    decreases n
  {
    if n == 1 {
    } else {
      LeafAtSelf(Half(n), j / 2);
    }
  }

  lemma {:induction false} DepthHolds(n: nat)
    requires n > 0
    ensures n <= Pow2(Depth(n))
    decreases n
  {
    if n == 1 {
    } else {
      DepthHolds(Half(n));
    }
  }

  // ---------- the root, from the top down ----------

  /** Node j of height d in the padded tree of depth top: a leaf of the list at the foot, and above it
      the hash of the left child's bytes followed by the right child's. */
  function Node(h: Hasher, xs: seq<Digest>, top: nat, d: nat, j: nat): Digest
    requires xs != []
    decreases d
  {
    if d == 0 then xs[LeafAt(|xs|, top, j)]
    else
      var left: seq<byte>, right: seq<byte> := Node(h, xs, top, d - 1, 2 * j), Node(h, xs, top, d - 1, 2 * j + 1);
      h(left + right)
  }

  lemma {:induction false} NodeUp(h: Hasher, xs: seq<Digest>, top: nat, d: nat, j: nat)
    requires |xs| > 1
    ensures Node(h, xs, top + 1, d + 1, j) == Node(h, Level(h, xs), top, d, j)
    decreases d
  {
    if d == 0 {
      var p := LeafAt(Half(|xs|), top, j);
      assert (2 * j) / 2 == j && (2 * j + 1) / 2 == j;
      assert LeafAt(|xs|, top + 1, 2 * j) == 2 * p;
      assert LeafAt(|xs|, top + 1, 2 * j + 1) == if 2 * p + 1 < |xs| then 2 * p + 1 else 2 * p;
      var left: seq<byte>, right: seq<byte> := Node(h, xs, top + 1, 0, 2 * j), Node(h, xs, top + 1, 0, 2 * j + 1);
      assert left + right == PairAt(xs, p);
    } else {
      NodeUp(h, xs, top, d - 1, 2 * j);
      NodeUp(h, xs, top, d - 1, 2 * j + 1);
    }
  }

  /** The root is the top of the padded tree. */
  lemma {:induction false} RootIsNode(h: Hasher, xs: seq<Digest>)
    requires xs != []
    ensures Root(h, xs) == Node(h, xs, Depth(|xs|), Depth(|xs|), 0)
    decreases |xs|
  {
    hide Level;
    if |xs| > 1 {
      RootIsNode(h, Level(h, xs));
      NodeUp(h, xs, Depth(Half(|xs|)), Depth(Half(|xs|)), 0);
    }
  }

  /** A block's root is the top of the tree over its transaction ids turned end to end; a block with
      none has 32 zero bytes. */
  lemma BlockRootIsNode(h: Hasher, txids: seq<Digest>, xs: seq<Digest>)
    requires |xs| == |txids| && forall i, k | 0 <= i < |xs| && 0 <= k < 32 :: xs[i][k] == txids[i][31 - k]
    ensures if txids == [] then |BlockRoot(h, txids)| == 32 && forall k | 0 <= k < 32 :: BlockRoot(h, txids)[k] == 0
            else BlockRoot(h, txids) == Node(h, xs, Depth(|xs|), Depth(|xs|), 0)
  {
    hide Root, Node;
    if txids != [] {
      forall i | 0 <= i < |xs| ensures xs[i] == Leaves(txids)[i] {}
      assert xs == Leaves(txids);
      RootIsNode(h, xs);
    }
  }

  // ---------- levels ----------

  /** The k-th level above the leaves. */
  function Up(h: Hasher, xs: seq<Digest>, k: nat): (ys: seq<Digest>)
    requires xs != [] && k <= Depth(|xs|)
    ensures ys != [] && Depth(|ys|) == Depth(|xs|) - k
    decreases k
  {
    if k == 0 then xs else Up(h, Level(h, xs), k - 1)
  }

  lemma {:induction false} UpRoot(h: Hasher, xs: seq<Digest>, k: nat)
    requires xs != [] && k <= Depth(|xs|)
    ensures Root(h, Up(h, xs, k)) == Root(h, xs)
    decreases k
  {
    if k == 0 {
    } else {
      UpRoot(h, Level(h, xs), k - 1);
    }
  }

  /** The strings hashed on the way from a list to its root. */
  ghost predicate Hashed(h: Hasher, xs: seq<Digest>, b: seq<byte>)
    decreases |xs|
  {
    |xs| > 1 && ((exists i: nat :: 2 * i < |xs| && b == PairAt(xs, i)) || Hashed(h, Level(h, xs), b))
  }

  lemma {:induction false} UpHashed(h: Hasher, xs: seq<Digest>, k: nat, b: seq<byte>)
    requires xs != [] && k <= Depth(|xs|) && Hashed(h, Up(h, xs, k), b)
    ensures Hashed(h, xs, b)
    decreases k
  {
    if k == 0 {
    } else {
      UpHashed(h, Level(h, xs), k - 1, b);
    }
  }

  ghost predicate Clash(h: Hasher, xs: seq<Digest>, ys: seq<Digest>, a: seq<byte>, b: seq<byte>) {
    Hashed(h, xs, a) && Hashed(h, ys, b) && Collides(h, (a, b))
  }

  // ---------- lists of one depth ----------

  /** The leaf at a position is a half of its parent's input. */
  lemma LeafInPair(xs: seq<Digest>, d: nat, j: nat)
    requires |xs| > 1 && d > 0
    ensures var p := LeafAt(Half(|xs|), d - 1, j / 2);
            2 * p < |xs| &&
            xs[LeafAt(|xs|, d, j)] == if j % 2 == 0 then PairAt(xs, p)[..32] else PairAt(xs, p)[32..]
  {
    var p := LeafAt(Half(|xs|), d - 1, j / 2);
    assert 2 * p < |xs|;
  }

  lemma ParentAt(h: Hasher, xs: seq<Digest>, d: nat, j: nat)
    requires |xs| > 1
    ensures var p := LeafAt(Half(|xs|), d, j); 2 * p < |xs| && Level(h, xs)[p] == h(PairAt(xs, p))
  {}

  /** Alike when padded, alike in the root, for every hash function. */
  lemma {:induction false} SameTreeSameRoot(h: Hasher, xs: seq<Digest>, ys: seq<Digest>)
    requires xs != [] && ys != [] && SameTree(xs, ys)
    ensures Root(h, xs) == Root(h, ys)
    decreases |xs|
  {
    var d := Depth(|xs|);
    if d == 0 {
      assert xs[LeafAt(|xs|, 0, 0)] == ys[LeafAt(|ys|, 0, 0)];
    } else {
      var us, vs, e := Level(h, xs), Level(h, ys), d - 1;
      forall j: nat | j < Pow2(e)
        ensures us[LeafAt(|us|, e, j)] == vs[LeafAt(|vs|, e, j)]
      {
        SamePair(xs, ys, d, j);
        ParentAt(h, xs, e, j);
        ParentAt(h, ys, e, j);
      }
      SameTreeSameRoot(h, us, vs);
    }
  }

  lemma SamePair(xs: seq<Digest>, ys: seq<Digest>, d: nat, j: nat)
    requires |xs| > 1 && |ys| > 1 && d > 0 && SameTree(xs, ys) && d == Depth(|xs|) && j < Pow2(d - 1)
    ensures var p, q := LeafAt(Half(|xs|), d - 1, j), LeafAt(Half(|ys|), d - 1, j);
            2 * p < |xs| && 2 * q < |ys| && PairAt(xs, p) == PairAt(ys, q)
  {
    var p, q := LeafAt(Half(|xs|), d - 1, j), LeafAt(Half(|ys|), d - 1, j);
    LeafInPair(xs, d, 2 * j);
    LeafInPair(xs, d, 2 * j + 1);
    LeafInPair(ys, d, 2 * j);
    LeafInPair(ys, d, 2 * j + 1);
    assert (2 * j) / 2 == j && (2 * j + 1) / 2 == j && 2 * j + 1 < Pow2(d);
    hide LeafAt, PairAt, Pow2;
    assert xs[LeafAt(|xs|, d, 2 * j)] == ys[LeafAt(|ys|, d, 2 * j)];
    assert xs[LeafAt(|xs|, d, 2 * j + 1)] == ys[LeafAt(|ys|, d, 2 * j + 1)];
    var x, y := PairAt(xs, p), PairAt(ys, q);
    assert x == x[..32] + x[32..] && y == y[..32] + y[32..];
  }

  /** Alike in the root, alike when padded, or two of the strings hashed collide. */
  lemma {:induction false} SameRootSameTree(h: Hasher, xs: seq<Digest>, ys: seq<Digest>) returns (a: seq<byte>, b: seq<byte>)
    requires xs != [] && ys != [] && Depth(|xs|) == Depth(|ys|) && Root(h, xs) == Root(h, ys)
    ensures SameTree(xs, ys) || Clash(h, xs, ys, a, b)
    decreases |xs|
  {
    var d := Depth(|xs|);
    a, b := [], [];
    if d == 0 {
    } else {
      var us, vs := Level(h, xs), Level(h, ys);
      a, b := SameRootSameTree(h, us, vs);
      if SameTree(us, vs) {
        a, b := LevelClash(h, xs, ys, d - 1);
      }
    }
  }

  /** What the parent of two neighbouring positions is the hash of. */
  ghost function Inputs(xs: seq<Digest>, e: nat, j: nat): seq<byte>
    requires |xs| > 1
  {
    PairAt(xs, LeafAt(Half(|xs|), e, j))
  }

  lemma InputsHashed(h: Hasher, xs: seq<Digest>, e: nat, j: nat)
    requires |xs| > 1
    ensures Hashed(h, xs, Inputs(xs, e, j))
    ensures var us := Level(h, xs); us[LeafAt(|us|, e, j)] == h(Inputs(xs, e, j))
  {
    hide LeafAt, PairAt;
    ParentAt(h, xs, e, j);
  }

  lemma InputsDecide(xs: seq<Digest>, ys: seq<Digest>, e: nat)
    requires |xs| > 1 && |ys| > 1 && e + 1 == Depth(|xs|) == Depth(|ys|)
    requires forall j: nat | j < Pow2(e) :: Inputs(xs, e, j) == Inputs(ys, e, j)
    ensures SameTree(xs, ys)
  {
    var d := e + 1;
    forall j: nat | j < Pow2(d)
      ensures xs[LeafAt(|xs|, d, j)] == ys[LeafAt(|ys|, d, j)]
    {
      LeafInPair(xs, d, j);
      LeafInPair(ys, d, j);
      assert j / 2 < Pow2(e);
      hide LeafAt, Pow2, PairAt;
      assert Inputs(xs, e, j / 2) == Inputs(ys, e, j / 2);
    }
  }

  /** One level: the inputs at every position agree, or a pair of them collides. */
  lemma LevelClash(h: Hasher, xs: seq<Digest>, ys: seq<Digest>, e: nat) returns (a: seq<byte>, b: seq<byte>)
    requires |xs| > 1 && |ys| > 1 && e + 1 == Depth(|xs|) == Depth(|ys|)
    requires SameTree(Level(h, xs), Level(h, ys))
    ensures SameTree(xs, ys) || Clash(h, xs, ys, a, b)
  {
    hide LeafAt, Pow2, Inputs, Hashed;
    if j: nat :| j < Pow2(e) && Inputs(xs, e, j) != Inputs(ys, e, j) {
      InputsHashed(h, xs, e, j);
      InputsHashed(h, ys, e, j);
      return Inputs(xs, e, j), Inputs(ys, e, j);
    }
    InputsDecide(xs, ys, e);
    return [], [];
  }

  // ---------- any two lists ----------

  function Lesser(a: nat, b: nat): nat { if a < b then a else b }

  /** The deeper of two lists, taken up to the depth of the other. */
  function Cut(h: Hasher, xs: seq<Digest>, n: nat): (ys: seq<Digest>)
    requires xs != [] && n > 0
    ensures ys != [] && Depth(|ys|) == Lesser(Depth(|xs|), Depth(n))
  {
    Up(h, xs, Depth(|xs|) - Lesser(Depth(|xs|), Depth(n)))
  }

  /** Two lists have one root exactly when, cut to one depth, they look alike once padded; or two
      of the strings hashed for them collide. */
  lemma RootExact(h: Hasher, xs: seq<Digest>, ys: seq<Digest>) returns (a: seq<byte>, b: seq<byte>)
    requires xs != [] && ys != []
    ensures SameTree(Cut(h, xs, |ys|), Cut(h, ys, |xs|)) ==> Root(h, xs) == Root(h, ys)
    ensures Root(h, xs) == Root(h, ys) ==>
              SameTree(Cut(h, xs, |ys|), Cut(h, ys, |xs|)) || Clash(h, xs, ys, a, b)
  {
    hide SameTree, Root;
    var d := Lesser(Depth(|xs|), Depth(|ys|));
    var us, vs := Cut(h, xs, |ys|), Cut(h, ys, |xs|);
    UpRoot(h, xs, Depth(|xs|) - d);
    UpRoot(h, ys, Depth(|ys|) - d);
    a, b := [], [];
    if SameTree(us, vs) {
      SameTreeSameRoot(h, us, vs);
    } else if Root(h, xs) == Root(h, ys) {
      a, b := SameRootSameTree(h, us, vs);
      UpHashed(h, xs, Depth(|xs|) - d, a);
      UpHashed(h, ys, Depth(|ys|) - d, b);
    }
  }

  /** Lists of one depth need no cutting, so the condition names no hash. */
  lemma RootExactOneDepth(h: Hasher, xs: seq<Digest>, ys: seq<Digest>) returns (a: seq<byte>, b: seq<byte>)
    requires xs != [] && ys != [] && Depth(|xs|) == Depth(|ys|)
    ensures SameTree(xs, ys) ==> Root(h, xs) == Root(h, ys)
    ensures Root(h, xs) == Root(h, ys) ==> SameTree(xs, ys) || Clash(h, xs, ys, a, b)
  {
    hide SameTree, Root;
    a, b := RootExact(h, xs, ys);
    assert Cut(h, xs, |ys|) == xs && Cut(h, ys, |xs|) == ys;
  }

  /** Lists of one length look alike once padded only if they are equal. */
  lemma SameTreeEqual(xs: seq<Digest>, ys: seq<Digest>)
    requires xs != [] && |xs| == |ys| && SameTree(xs, ys)
    ensures xs == ys
  {
    DepthHolds(|xs|);
    forall i: nat | i < |xs|
      ensures xs[i] == ys[i]
    {
      LeafAtSelf(|xs|, i);
      assert xs[LeafAt(|xs|, Depth(|xs|), i)] == ys[LeafAt(|ys|, Depth(|xs|), i)];
    }
  }

  /** Two lists of equal length with one root are equal, or two of the strings hashed collide. */
  lemma RootBinds(h: Hasher, xs: seq<Digest>, ys: seq<Digest>) returns (a: seq<byte>, b: seq<byte>)
    requires xs != [] && |xs| == |ys| && Root(h, xs) == Root(h, ys)
    ensures xs == ys || Clash(h, xs, ys, a, b)
  {
    hide SameTree, Root;
    a, b := RootExactOneDepth(h, xs, ys);
    if SameTree(xs, ys) { SameTreeEqual(xs, ys); }
  }

  // ---------- repetitions ----------

  /** The largest power of two that divides n. */
  function TwoPart(n: nat): (s: nat)
    requires n > 0
    ensures 0 < s <= n
  {
    if n % 2 == 1 then 1 else 2 * TwoPart(n / 2)
  }

  /** The leaf that place i stands for when the last s of n leaves are repeated. */
  function Fold(n: nat, s: nat, i: nat): nat {
    if i < n || i < s then i else i - s
  }

  lemma FoldOdd(n: nat, p: nat, b: nat)
    requires n % 2 == 1 && n > 1 && b < 2 && p < Half(n)
    ensures Half(n + 1) == Half(n) && Child(n, p, b) == Fold(n, 1, Child(n + 1, p, b))
  {}

  lemma FoldEven(m: nat, s: nat, p: nat, b: nat)
    requires 0 < s < m && p < m + s && b < 2
    ensures Half(2 * m) == m && Half(2 * m + 2 * s) == m + s
    ensures Child(2 * m, Fold(m, s, p), b) == Fold(2 * m, 2 * s, Child(2 * m + 2 * s, p, b))
  {}

  lemma {:induction false} FoldLeaf(n: nat, d: nat, j: nat)
    requires n > 0 && TwoPart(n) < n && d == Depth(n)
    ensures LeafAt(n, d, j) == Fold(n, TwoPart(n), LeafAt(n + TwoPart(n), d, j))
    decreases n
  {
    hide Fold, Child;
    if n % 2 == 1 {
      FoldOdd(n, LeafAt(Half(n), d - 1, j / 2), j % 2);
    } else {
      var m, s := n / 2, TwoPart(n / 2);
      FoldLeaf(m, d - 1, j / 2);
      FoldEven(m, s, LeafAt(m + s, d - 1, j / 2), j % 2);
    }
  }

  lemma {:induction false} DepthRepeated(n: nat)
    requires n > 0 && TwoPart(n) < n
    ensures Depth(n) == Depth(n + TwoPart(n))
    decreases n
  {
    if n % 2 == 1 {
    } else {
      DepthRepeated(n / 2);
    }
  }

  /** A block whose size is not a power of two has the root of the same block with its last 2^k
      transactions repeated, 2^k being the power of two in its size, whatever the hash function. */
  lemma RepeatedTail(h: Hasher, xs: seq<Digest>)
    requires xs != [] && TwoPart(|xs|) < |xs|
    ensures var ys := xs + xs[|xs| - TwoPart(|xs|)..];
            ys != xs && SameTree(xs, ys) && Root(h, xs) == Root(h, ys)
  {
    hide Root;
    var n, s := |xs|, TwoPart(|xs|);
    var ys := xs + xs[n - s..];
    DepthRepeated(n);
    var d := Depth(n);
    forall j: nat | j < Pow2(d)
      ensures xs[LeafAt(n, d, j)] == ys[LeafAt(n + s, d, j)]
    {
      hide TwoPart, LeafAt;
      FoldLeaf(n, d, j);
    }
    SameTreeSameRoot(h, xs, ys);
  }

  /** Repeating the last transaction of an odd block leaves the root unchanged. */
  lemma OddBlockAmbiguous(h: Hasher, xs: seq<Digest>)
    requires |xs| > 1 && |xs| % 2 == 1
    ensures var ys := xs + [xs[|xs| - 1]];
            ys != xs && Root(h, ys) == Root(h, xs)
  {
    RepeatedTail(h, xs);
    assert xs[|xs| - 1..] == [xs[|xs| - 1]];
  }

  // ---------- blocks ----------

  /** What the root itself is the hash of. */
  function Top(h: Hasher, xs: seq<Digest>): seq<byte>
    requires |xs| > 1
    decreases |xs|
  {
    if |xs| == 2 then PairAt(xs, 0) else Top(h, Level(h, xs))
  }

  lemma {:induction false} RootIsTop(h: Hasher, xs: seq<Digest>)
    requires |xs| > 1
    ensures Root(h, xs) == h(Top(h, xs)) && Hashed(h, xs, Top(h, xs))
    decreases |xs|
  {
    if |xs| == 2 {
      assert Level(h, xs) == [h(PairAt(xs, 0))];
    } else {
      RootIsTop(h, Level(h, xs));
    }
  }

  /** Reversing every id changes nothing about which lists look alike. */
  lemma LeavesSameTree(xs: seq<Digest>, ys: seq<Digest>)
    requires xs != [] && ys != []
    ensures SameTree(Leaves(xs), Leaves(ys)) <==> SameTree(xs, ys)
  {
    hide LeafAt, Pow2, Reversed;
    var d := Depth(|xs|);
    forall j: nat
      ensures Leaves(xs)[LeafAt(|xs|, d, j)] == Leaves(ys)[LeafAt(|ys|, d, j)] <==>
              xs[LeafAt(|xs|, d, j)] == ys[LeafAt(|ys|, d, j)]
    {
      ReversedInjective(xs[LeafAt(|xs|, d, j)], ys[LeafAt(|ys|, d, j)]);
    }
  }

  /** Two blocks whose trees have one depth have one root exactly when their id lists look alike
      once padded, or two of the strings hashed collide. */
  lemma BlockRootExact(h: Hasher, xs: seq<Digest>, ys: seq<Digest>) returns (a: seq<byte>, b: seq<byte>)
    requires xs != [] && ys != [] && Depth(|xs|) == Depth(|ys|)
    ensures SameTree(xs, ys) ==> BlockRoot(h, xs) == BlockRoot(h, ys)
    ensures BlockRoot(h, xs) == BlockRoot(h, ys) ==> SameTree(xs, ys) || Clash(h, Leaves(xs), Leaves(ys), a, b)
  {
    hide SameTree, Root, Clash;
    LeavesSameTree(xs, ys);
    a, b := RootExactOneDepth(h, Leaves(xs), Leaves(ys));
  }

  /** A block shares the root of an empty one exactly when it is a single zero id or its topmost
      input hashes to zero. */
  lemma EmptyBlockRoot(h: Hasher, xs: seq<Digest>)
    requires xs != []
    ensures BlockRoot(h, xs) == BlockRoot(h, []) <==>
            if |xs| == 1 then xs[0] == Zero() else h(Top(h, Leaves(xs))) == Zero()
  {
    if |xs| == 1 {
      assert Reversed(Zero()) == Zero();
      ReversedInjective(xs[0], Zero());
    } else {
      RootIsTop(h, Leaves(xs));
    }
  }

  // ---------- paths of any depth ----------

  /** The strings hashed while climbing a path. */
  ghost predicate OnPath(h: Hasher, leaf: Digest, branch: seq<Digest>, index: nat, b: seq<byte>)
    decreases |branch|
  {
    branch != [] &&
    (b == Ordered(leaf, branch[0], index) ||
     OnPath(h, h(Ordered(leaf, branch[0], index)), branch[1..], index / 2, b))
  }

  ghost predicate PathClash(h: Hasher, leaf: Digest, branch: seq<Digest>, index: nat, xs: seq<Digest>,
                            a: seq<byte>, b: seq<byte>)
  {
    OnPath(h, leaf, branch, index, a) && Hashed(h, xs, b) && Collides(h, (a, b))
  }

  /** A path as deep as the tree starts at the leaf its index bits lead to. */
  lemma {:induction false} PathAtDepth(h: Hasher, xs: seq<Digest>, leaf: Digest, branch: seq<Digest>, index: nat)
    returns (a: seq<byte>, b: seq<byte>)
    requires xs != [] && |branch| == Depth(|xs|) && Climb(h, leaf, branch, index) == Root(h, xs)
    ensures leaf == xs[LeafAt(|xs|, |branch|, index)] || PathClash(h, leaf, branch, index, xs, a, b)
    decreases |branch|
  {
    a, b := [], [];
    if branch == [] {
    } else {
      var x, e := Ordered(leaf, branch[0], index), |branch| - 1;
      a, b := PathAtDepth(h, Level(h, xs), h(x), branch[1..], index / 2);
      hide Climb, Root, Depth, Level, Ordered, LeafAt;
      InputsHashed(h, xs, e, index / 2);
      if x == Inputs(xs, e, index / 2) {
        StepDown(xs, leaf, branch[0], index, e);
      } else if h(x) == h(Inputs(xs, e, index / 2)) {
        a, b := x, Inputs(xs, e, index / 2);
      }
    }
  }

  lemma StepDown(xs: seq<Digest>, leaf: Digest, sibling: Digest, index: nat, e: nat)
    requires |xs| > 1 && Ordered(leaf, sibling, index) == Inputs(xs, e, index / 2)
    ensures leaf == xs[LeafAt(|xs|, e + 1, index)]
  {
    LeafInPair(xs, e + 1, index);
    hide LeafAt, PairAt, Ordered;
    OrderedHalf(leaf, sibling, index);
  }

  lemma OrderedHalf(leaf: Digest, sibling: Digest, index: nat)
    ensures leaf == if index % 2 == 0 then Ordered(leaf, sibling, index)[..32] else Ordered(leaf, sibling, index)[32..]
  {}

  /** index >> e. */
  function Shift(index: nat, e: nat): nat {
    if e == 0 then index else Shift(index / 2, e - 1)
  }

  lemma {:induction false} ClimbSplit(h: Hasher, leaf: Digest, branch: seq<Digest>, index: nat, e: nat)
    requires e <= |branch|
    ensures Climb(h, leaf, branch, index) == Climb(h, Climb(h, leaf, branch[..e], index), branch[e..], Shift(index, e))
    decreases e
  {
    if e == 0 {
      assert branch[..0] == [] && branch[0..] == branch;
    } else {
      hide Ordered;
      ClimbSplit(h, h(Ordered(leaf, branch[0], index)), branch[1..], index / 2, e - 1);
      assert branch[1..][..e - 1] == branch[..e][1..] && branch[1..][e - 1..] == branch[e..];
    }
  }

  lemma {:induction false} OnPathSplit(h: Hasher, leaf: Digest, branch: seq<Digest>, index: nat, e: nat, b: seq<byte>)
    requires e <= |branch| && OnPath(h, Climb(h, leaf, branch[..e], index), branch[e..], Shift(index, e), b)
    ensures OnPath(h, leaf, branch, index, b)
    decreases e
  {
    if e == 0 {
      assert branch[..0] == [] && branch[0..] == branch;
    } else {
      hide Ordered;
      assert branch[1..][..e - 1] == branch[..e][1..] && branch[1..][e - 1..] == branch[e..];
      OnPathSplit(h, h(Ordered(leaf, branch[0], index)), branch[1..], index / 2, e - 1, b);
    }
  }

  /** Where a path that climbs to the root of xs starts: a path no deeper than the tree at a node
      as far below the root, a deeper one below a leaf. Only index bits say which. */
  ghost predicate StartsAt(h: Hasher, xs: seq<Digest>, leaf: Digest, branch: seq<Digest>, index: nat)
    requires xs != []
  {
    var d, depth := |branch|, Depth(|xs|);
    if d <= depth then
      var level := Up(h, xs, depth - d);
      leaf == level[LeafAt(|level|, d, index)]
    else
      Climb(h, leaf, branch[..d - depth], index) == xs[LeafAt(|xs|, depth, Shift(index, d - depth))]
  }

  /** A path of any depth and index fixes the node it starts at, or a collision is exhibited. */
  lemma PathFixes(h: Hasher, xs: seq<Digest>, leaf: Digest, branch: seq<Digest>, index: nat)
    returns (a: seq<byte>, b: seq<byte>)
    requires xs != [] && Climb(h, leaf, branch, index) == Root(h, xs)
    ensures StartsAt(h, xs, leaf, branch, index) || PathClash(h, leaf, branch, index, xs, a, b)
  {
    hide Climb, Root, LeafAt, OnPath, Hashed;
    var d, depth := |branch|, Depth(|xs|);
    if d <= depth {
      UpRoot(h, xs, depth - d);
      a, b := PathAtDepth(h, Up(h, xs, depth - d), leaf, branch, index);
      if Hashed(h, Up(h, xs, depth - d), b) { UpHashed(h, xs, depth - d, b); }
    } else {
      var e := d - depth;
      var mid := Climb(h, leaf, branch[..e], index);
      ClimbSplit(h, leaf, branch, index, e);
      a, b := PathAtDepth(h, xs, mid, branch[e..], Shift(index, e));
      if OnPath(h, mid, branch[e..], Shift(index, e), a) { OnPathSplit(h, leaf, branch, index, e, a); }
    }
  }
}
