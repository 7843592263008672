/** The legacy receipts root of src/poawx.rs. It sorts the receipts themselves, unstably, by
    height, lane, worker and nonce, so receipts that agree on those four may end in any order. */
module LegacyRoot {
  import opened Basics
  import opened Reading
  import opened Merkle
  import opened Sorting
  import opened ReceiptExt
  import opened ReceiptHead
  import opened Receipts
  import opened ReceiptsRoot

  datatype Key = Key(height: u64, lane: byte, pkh: Bytes, nonce: Bytes)

  function KeyOf(): Receipt -> Key {
    (r: Receipt) => Key(r.body.height, r.body.lane, r.body.pkh, r.body.nonce)
  }

  predicate KeyLeq(a: Key, b: Key) {
    a.height < b.height ||
    (a.height == b.height &&
     (a.lane < b.lane ||
      (a.lane == b.lane &&
       (if a.pkh != b.pkh then LexLeq(a.pkh, b.pkh) else LexLeq(a.nonce, b.nonce)))))
  }

  predicate ReceiptLeq(r: Receipt, s: Receipt) {
    KeyLeq(KeyOf()(r), KeyOf()(s))
  }

  /** What the legacy inner hash is taken of: no signer key and no signature. */
  function LegacyPreimage(h: Hasher, r: Receipt): Bytes {
    var b := r.body;
    LeBytes(b.height, 8) + ([b.lane] + (b.pkh + (b.solution + b.nonce))) + (DelegationDigest(h, r) + ExtDigest(h, r))
  }

  /** The inner hash; before phase 20 the extension is left out. */
  function LegacyInner(h: Hasher, phase20: bool): Receipt -> Bytes {
    r => h(LegacyPreimage(h, Bound(phase20)(r)))
  }

  /** An outcome the unstable sort allows. */
  ghost predicate Arranged(rs: seq<Receipt>, p: seq<Receipt>) {
    multiset(p) == multiset(rs) && SortedBy(ReceiptLeq, p)
  }

  /** What the outer hash is taken of, given the sorted receipts. */
  function LegacyOuter(h: Hasher, phase20: bool, p: seq<Receipt>): Bytes {
    Concat(Map(LegacyInner(h, phase20), p))
  }

  /** Receipts with one key have one inner hash. */
  ghost predicate KeysDecide(h: Hasher, phase20: bool, rs: seq<Receipt>) {
    forall r, s | r in rs && s in rs && KeyOf()(r) == KeyOf()(s) :: LegacyInner(h, phase20)(r) == LegacyInner(h, phase20)(s)
  }

  // ---------- the key order ----------

  lemma KeyTotal(a: Key, b: Key)
    ensures KeyLeq(a, b) || KeyLeq(b, a)
    ensures KeyLeq(a, b) && KeyLeq(b, a) ==> a == b
  {
    LexTotal(a.pkh, b.pkh);
    LexTotal(a.nonce, b.nonce);
  }

  lemma KeyTransitive(a: Key, b: Key, c: Key)
    requires KeyLeq(a, b) && KeyLeq(b, c)
    ensures KeyLeq(a, c)
  {
    LexTotal(a.pkh, b.pkh);
    if LexLeq(a.pkh, b.pkh) && LexLeq(b.pkh, c.pkh) { LexTransitive(a.pkh, b.pkh, c.pkh); }
    if LexLeq(a.nonce, b.nonce) && LexLeq(b.nonce, c.nonce) { LexTransitive(a.nonce, b.nonce, c.nonce); }
  }

  lemma KeyIsOrder()
    ensures TotalOrder(KeyLeq) && Preorder(ReceiptLeq)
  {
    hide KeyLeq;
    forall a, b
      ensures (KeyLeq(a, b) || KeyLeq(b, a)) && (KeyLeq(a, b) && KeyLeq(b, a) ==> a == b)
    {
      KeyTotal(a, b);
    }
    forall a, b, c | KeyLeq(a, b) && KeyLeq(b, c)
      ensures KeyLeq(a, c)
    {
      KeyTransitive(a, b, c);
    }
  }

  /** One receipt comes before another: by height, then lane, then worker and nonce byte by byte. */
  ghost predicate Before(a: Body, b: Body) {
    a.height < b.height ||
    (a.height == b.height &&
     (a.lane < b.lane ||
      (a.lane == b.lane && (Precedes(a.pkh, b.pkh) || (a.pkh == b.pkh && Precedes(a.nonce, b.nonce))))))
  }

  lemma KeyExact(r: Receipt, s: Receipt)
    ensures ReceiptLeq(r, s) <==> !Before(s.body, r.body)
  {
    NotBefore(r.body.pkh, s.body.pkh);
    NotBefore(r.body.nonce, s.body.nonce);
    LexTotal(r.body.pkh, s.body.pkh);
    if r.body.pkh == s.body.pkh { PrecedesNotItself(r.body.pkh); }
    LexExact(s.body.pkh, r.body.pkh);
    hide Precedes, LexLeq;
  }

  /** The sort may end in exactly the arrangements in which no receipt comes before an earlier one. */
  lemma ArrangedExact(rs: seq<Receipt>, p: seq<Receipt>)
    ensures Arranged(rs, p) <==>
            multiset(p) == multiset(rs) && forall i, j | 0 <= i < j < |p| :: !Before(p[j].body, p[i].body)
  {
    hide Before, KeyLeq;
    forall i, j | 0 <= i < j < |p|
      ensures ReceiptLeq(p[i], p[j]) <==> !Before(p[j].body, p[i].body)
    {
      KeyExact(p[i], p[j]);
    }
  }

  // ---------- when the root is determined ----------

  lemma ArrangedKeys(rs: seq<Receipt>, p: seq<Receipt>, q: seq<Receipt>)
    requires Arranged(rs, p) && Arranged(rs, q)
    ensures Map(KeyOf(), p) == Map(KeyOf(), q)
  {
    hide KeyLeq;
    KeyIsOrder();
    MapPermutes(KeyOf(), p, q);
    SortedUnique(KeyLeq, Map(KeyOf(), p), Map(KeyOf(), q));
  }

  lemma Determined(h: Hasher, phase20: bool, rs: seq<Receipt>, p: seq<Receipt>, q: seq<Receipt>)
    requires KeysDecide(h, phase20, rs) && Arranged(rs, p) && Arranged(rs, q)
    ensures LegacyOuter(h, phase20, p) == LegacyOuter(h, phase20, q)
  {
    hide KeyLeq, LegacyPreimage, Concat;
    ArrangedKeys(rs, p, q);
    assert |p| == |Map(KeyOf(), p)| == |q|;
    forall i | 0 <= i < |p|
      ensures LegacyInner(h, phase20)(p[i]) == LegacyInner(h, phase20)(q[i])
    {
      assert Map(KeyOf(), p)[i] == Map(KeyOf(), q)[i];
      assert p[i] in multiset(p) && q[i] in multiset(q);
      assert p[i] in multiset(rs) && q[i] in multiset(rs);
    }
    assert Map(LegacyInner(h, phase20), p) == Map(LegacyInner(h, phase20), q);
  }

  /** Swapping two receipts with one key leaves a sorted list sorted. */
  lemma SwapSorted(p: seq<Receipt>, i: nat, j: nat)
    requires SortedBy(ReceiptLeq, p) && i < j < |p| && KeyOf()(p[i]) == KeyOf()(p[j])
    ensures SortedBy(ReceiptLeq, p[i := p[j]][j := p[i]])
  {
    hide KeyLeq;
    var q := p[i := p[j]][j := p[i]];
    KeyIsOrder();
    forall k, m | 0 <= k < m < |q|
      ensures ReceiptLeq(q[k], q[m])
    {
      assert ReceiptLeq(p[k], p[m]);
      if k < j && i < m { BetweenEqual(p, i, j, if k > i then k else m); }
    }
  }

  lemma BetweenEqual(p: seq<Receipt>, i: nat, j: nat, k: nat)
    requires SortedBy(ReceiptLeq, p) && i < j < |p| && k < |p| && KeyOf()(p[i]) == KeyOf()(p[j])
    ensures i <= k <= j ==> KeyOf()(p[k]) == KeyOf()(p[i])
  {
    hide KeyLeq;
    if i < k < j {
      assert ReceiptLeq(p[i], p[k]) && ReceiptLeq(p[k], p[j]);
      KeyTotal(KeyOf()(p[i]), KeyOf()(p[k]));
    }
  }

  lemma InnerWidth(h: Hasher, phase20: bool, r: Receipt)
    ensures |LegacyInner(h, phase20)(r)| == 32
  {
    hide LegacyPreimage;
    var d: Digest := h(LegacyPreimage(h, Bound(phase20)(r)));
    assert d == LegacyInner(h, phase20)(r);
  }

  lemma LegacyWidth(h: Hasher, phase20: bool, p: seq<Receipt>)
    ensures AllWidth(Map(LegacyInner(h, phase20), p), 32)
  {
    hide LegacyPreimage;
    var inners := Map(LegacyInner(h, phase20), p);
    forall d | d in inners
      ensures |d| == 32
    {
      var i :| 0 <= i < |inners| && inners[i] == d;
      InnerWidth(h, phase20, p[i]);
    }
  }

  /** Two receipts with one key and two inner hashes: the sort may swap them, and the bytes change. */
  lemma Swapped(h: Hasher, phase20: bool, p: seq<Receipt>, i: nat, j: nat)
    requires SortedBy(ReceiptLeq, p) && i < j < |p|
    requires KeyOf()(p[i]) == KeyOf()(p[j]) && LegacyInner(h, phase20)(p[i]) != LegacyInner(h, phase20)(p[j])
    ensures var q := p[i := p[j]][j := p[i]];
            Arranged(p, q) && LegacyOuter(h, phase20, q) != LegacyOuter(h, phase20, p)
  {
    hide LegacyPreimage, Concat, AllWidth, ReceiptLeq, Map;
    var q := p[i := p[j]][j := p[i]];
    SwapSorted(p, i, j);
    if LegacyOuter(h, phase20, q) == LegacyOuter(h, phase20, p) {
      LegacyWidth(h, phase20, p);
      LegacyWidth(h, phase20, q);
      ChunksEqual(Map(LegacyInner(h, phase20), q), Map(LegacyInner(h, phase20), p), 32);
      assert false;
    }
  }

  lemma Ambiguous(h: Hasher, phase20: bool, rs: seq<Receipt>) returns (p: seq<Receipt>, q: seq<Receipt>)
    requires !KeysDecide(h, phase20, rs)
    ensures Arranged(rs, p) && Arranged(rs, q) && LegacyOuter(h, phase20, p) != LegacyOuter(h, phase20, q)
  {
    hide LegacyPreimage, LegacyOuter, ReceiptLeq, SortBy;
    var r, s :| r in rs && s in rs && KeyOf()(r) == KeyOf()(s) && LegacyInner(h, phase20)(r) != LegacyInner(h, phase20)(s);
    KeyIsOrder();
    p := SortBy(ReceiptLeq, rs);
    SortBySorted(ReceiptLeq, rs);
    assert r in multiset(p) && s in multiset(p);
    var i :| 0 <= i < |p| && p[i] == r;
    var j :| 0 <= j < |p| && p[j] == s;
    if i < j {
      Swapped(h, phase20, p, i, j);
      q := p[i := p[j]][j := p[i]];
    } else {
      Swapped(h, phase20, p, j, i);
      q := p[j := p[i]][i := p[j]];
    }
  }

  /** The bytes hashed for the legacy root are a function of the receipts if and only if equal keys
      mean equal inner hashes. */
  lemma LegacyDetermined(h: Hasher, phase20: bool, rs: seq<Receipt>)
    ensures KeysDecide(h, phase20, rs) <==>
            (forall p, q | Arranged(rs, p) && Arranged(rs, q) :: LegacyOuter(h, phase20, p) == LegacyOuter(h, phase20, q))
  {
    hide KeysDecide, Arranged, LegacyOuter;
    if KeysDecide(h, phase20, rs) {
      forall p, q | Arranged(rs, p) && Arranged(rs, q)
        ensures LegacyOuter(h, phase20, p) == LegacyOuter(h, phase20, q)
      {
        Determined(h, phase20, rs, p, q);
      }
    } else {
      var p, q := Ambiguous(h, phase20, rs);
    }
  }

  // ---------- the root ----------

  /** A root the source may compute. */
  ghost predicate IsRoot(h: Hasher, phase20: bool, rs: seq<Receipt>, root: Digest) {
    exists p :: Arranged(rs, p) && root == h(LegacyOuter(h, phase20, p))
  }

  /** irx1_root_from_block_receipts_gated, with some sort. */
  method ComputeLegacyRoot(h: Hasher, phase20: bool, rs: seq<Receipt>) returns (root: Digest)
    ensures IsRoot(h, phase20, rs, root)
  {
    hide ReceiptLeq, LegacyPreimage, Concat;
    KeyIsOrder();
    SortBySorted(ReceiptLeq, rs);
    var sorted := SortBy(ReceiptLeq, rs);
    var inners: seq<Bytes> := [];
    for i := 0 to |sorted|
      invariant |inners| == i
      invariant forall k | 0 <= k < i :: inners[k] == LegacyInner(h, phase20)(sorted[k])
    {
      var bound := if phase20 then sorted[i] else sorted[i].(ext := None);
      assert bound == Bound(phase20)(sorted[i]);
      inners := inners + [h(LegacyPreimage(h, bound))];
    }
    assert inners == Map(LegacyInner(h, phase20), sorted);
    var bytes := JoinAll(inners);
    root := h(bytes);
    assert Arranged(rs, sorted) && root == h(LegacyOuter(h, phase20, sorted));
  }

  /** If equal keys mean equal inner hashes, reordering the receipts never changes the root. */
  lemma LegacyOrderFree(h: Hasher, phase20: bool, rs: seq<Receipt>, rs': seq<Receipt>, root: Digest, root': Digest)
    requires KeysDecide(h, phase20, rs) && multiset(rs) == multiset(rs')
    requires IsRoot(h, phase20, rs, root) && IsRoot(h, phase20, rs', root')
    ensures root == root'
  {
    hide KeysDecide, LegacyOuter, SortedBy;
    var p :| Arranged(rs, p) && root == h(LegacyOuter(h, phase20, p));
    var q :| Arranged(rs', q) && root' == h(LegacyOuter(h, phase20, q));
    Determined(h, phase20, rs, p, q);
  }

  /** Otherwise the source may compute two roots for one list, unless the hash collides. */
  lemma TwoRoots(h: Hasher, phase20: bool, rs: seq<Receipt>) returns (p: seq<Receipt>, q: seq<Receipt>)
    requires !KeysDecide(h, phase20, rs)
    ensures var x, y := LegacyOuter(h, phase20, p), LegacyOuter(h, phase20, q);
            IsRoot(h, phase20, rs, h(x)) && IsRoot(h, phase20, rs, h(y)) && (h(x) != h(y) || Collides(h, (x, y)))
  {
    hide KeysDecide, LegacyOuter, Arranged;
    p, q := Ambiguous(h, phase20, rs);
  }

  ghost predicate KeysDiffer(rs: seq<Receipt>) {
    forall i, j | 0 <= i < j < |rs| :: KeyOf()(rs[i]) != KeyOf()(rs[j])
  }

  /** Receipts with distinct keys have one root in any order. */
  lemma DistinctKeysOneRoot(h: Hasher, phase20: bool, rs: seq<Receipt>, rs': seq<Receipt>, root: Digest, root': Digest)
    requires KeysDiffer(rs) && multiset(rs) == multiset(rs')
    requires IsRoot(h, phase20, rs, root) && IsRoot(h, phase20, rs', root')
    ensures root == root'
  {
    hide IsRoot, LegacyPreimage;
    forall r, s | r in rs && s in rs && KeyOf()(r) == KeyOf()(s)
      ensures r == s
    {
      var i :| 0 <= i < |rs| && rs[i] == r;
      var j :| 0 <= j < |rs| && rs[j] == s;
    }
    LegacyOrderFree(h, phase20, rs, rs', root, root');
  }

  /** For a single receipt the two roots agree only through a collision of the hash. */
  lemma SingleDiffers(h: Hasher, phase20: bool, r: Receipt)
    requires BodyOk(r.body) && h(LegacyOuter(h, phase20, [r])) == AuditRoot(h, phase20, [r])
    ensures var s := Bound(phase20)(r);
            Collides(h, (LegacyPreimage(h, s), Preimage(h, s))) ||
            Collides(h, (LegacyOuter(h, phase20, [r]), Outer(h, [s])))
  {
    var s := Bound(phase20)(r);
    assert Map(Bound(phase20), [r]) == [s];
    hide LexLeq, LeBytes, DelegationDigest, ExtDigest;
    assert |LegacyPreimage(h, s)| < |Preimage(h, s)|;
    hide LegacyPreimage, Preimage;
    SingleOuter(h, phase20, r);
  }

  lemma SingleOuter(h: Hasher, phase20: bool, r: Receipt)
    ensures var s := Bound(phase20)(r);
            LegacyOuter(h, phase20, [r]) == h(LegacyPreimage(h, s)) && Outer(h, [s]) == h(Preimage(h, s))
  {
    hide LegacyPreimage, Preimage, LexLeq;
    var s := Bound(phase20)(r);
    assert Map(LegacyInner(h, phase20), [r]) == [LegacyInner(h, phase20)(r)];
    assert Map(Inner(h), [s]) == [Inner(h)(s)];
    SingleSort(Inner(h)(s));
    SingleConcat(Inner(h)(s));
    SingleConcat(LegacyInner(h, phase20)(r));
  }

  lemma SingleSort(d: Bytes)
    ensures SortBy(LexLeq, [d]) == [d]
  {
    assert [d][1..] == [];
  }

  lemma SingleConcat(d: Bytes)
    ensures Concat([d]) == d
  {
    assert [d][1..] == [];
    assert d + [] == d;
  }

  // ---------- what the legacy root binds ----------

  /** A receipt without its signer key and its signature. */
  function Unsigned(): Receipt -> Receipt {
    (r: Receipt) => r.(body := r.body.(pubkey := [], sig := []))
  }

  /** What the legacy root can say of a receipt: before phase 20 nothing of its extension either. */
  function Remembered(phase20: bool): Receipt -> Receipt {
    (r: Receipt) => Unsigned()(if phase20 then r else Bare(r))
  }

  /** The strings hashed on behalf of one receipt. */
  predicate LegacyPart(h: Hasher, r: Receipt, b: Bytes) {
    b == LegacyPreimage(h, r) || Attached(r, b)
  }

  ghost predicate LegacyHashed(h: Hasher, phase20: bool, p: seq<Receipt>, b: Bytes) {
    b == LegacyOuter(h, phase20, p) || exists r :: r in p && LegacyPart(h, Bound(phase20)(r), b)
  }

  ghost predicate LegacyClash(h: Hasher, phase20: bool, p: seq<Receipt>, q: seq<Receipt>, a: Bytes, b: Bytes) {
    LegacyHashed(h, phase20, p, a) && LegacyHashed(h, phase20, q, b) && Collides(h, (a, b))
  }

  /** Where the fields stand in what is hashed. */
  lemma LegacyLayout(h: Hasher, r: Receipt)
    requires BodyOk(r.body)
    ensures var s := LegacyPreimage(h, r);
            |s| >= 69 && s[..8] == LeBytes(r.body.height, 8) && s[8] == r.body.lane && s[9..29] == r.body.pkh &&
            s[29..37] == r.body.solution && s[37..69] == r.body.nonce && s[69..] == DelegationDigest(h, r) + ExtDigest(h, r)
  {
    hide LeBytes, DelegationDigest, ExtDigest;
    LegacySlices(LegacyPreimage(h, r), LeBytes(r.body.height, 8), r.body, DelegationDigest(h, r) + ExtDigest(h, r));
  }

  lemma LegacySlices(s: Bytes, height: Bytes, b: Body, t: Bytes)
    requires |height| == 8 && |b.pkh| == 20 && |b.solution| == 8 && |b.nonce| == 32
    requires s == height + ([b.lane] + (b.pkh + (b.solution + b.nonce))) + t
    ensures |s| >= 69 && s[..8] == height && s[8] == b.lane && s[9..29] == b.pkh && s[29..37] == b.solution
    ensures s[37..69] == b.nonce && s[69..] == t
  {}

  /** The signer key and the signature do not enter: receipts that differ only there are hashed alike. */
  lemma SignatureUnbound(h: Hasher, r: Receipt, s: Receipt)
    requires Unsigned()(r) == Unsigned()(s)
    ensures LegacyPreimage(h, r) == LegacyPreimage(h, s)
  {
    assert r.body.(pubkey := [], sig := []) == s.body.(pubkey := [], sig := []);
    var x, y := Unsigned()(r), Unsigned()(s);
    assert x.delegation == r.delegation && x.ext == r.ext && y.delegation == s.delegation && y.ext == s.ext;
    assert x.body.height == r.body.height && x.body.lane == r.body.lane && x.body.pkh == r.body.pkh;
    assert x.body.solution == r.body.solution && x.body.nonce == r.body.nonce;
  }

  lemma HeightOf(a: u64, b: u64)
    requires LeBytes(a, 8) == LeBytes(b, 8)
    ensures a == b
  {
    Word64Back(a);
    Word64Back(b);
  }

  /** Two receipts with one legacy inner hash that differ in more: two of the strings hashed collide. */
  lemma LegacyInnerClash(h: Hasher, f: Foreign, r: Receipt, s: Receipt) returns (a: Bytes, b: Bytes)
    requires ReceiptOk(f, r) && ReceiptOk(f, s) && Unsigned()(r) != Unsigned()(s)
    requires h(LegacyPreimage(h, r)) == h(LegacyPreimage(h, s))
    ensures LegacyPart(h, r, a) && LegacyPart(h, s, b) && Collides(h, (a, b))
  {
    if LegacyPreimage(h, r) != LegacyPreimage(h, s) { return LegacyPreimage(h, r), LegacyPreimage(h, s); }
    LegacyLayout(h, r);
    LegacyLayout(h, s);
    hide LegacyPreimage, LeBytes, EncodeExt, ExtOk;
    HeightOf(r.body.height, s.body.height);
    var r' := r.(body := s.body);
    assert DelegationDigest(h, r') == DelegationDigest(h, r) && ExtDigest(h, r') == ExtDigest(h, r);
    a, b := TailClash(h, f, r', s);
  }

  /** Equal outer bytes: place by place the receipts are the same as far as remembered, or collide. */
  lemma LegacyPlaces(h: Hasher, f: Foreign, phase20: bool, p: seq<Receipt>, q: seq<Receipt>) returns (a: Bytes, b: Bytes)
    requires AllOk(f, p) && AllOk(f, q) && LegacyOuter(h, phase20, p) == LegacyOuter(h, phase20, q)
    ensures Map(Remembered(phase20), p) == Map(Remembered(phase20), q) || LegacyClash(h, phase20, p, q, a, b)
  {
    hide LegacyPreimage, Concat, ReceiptOk, LegacyPart;
    LegacyWidth(h, phase20, p);
    LegacyWidth(h, phase20, q);
    ChunksEqual(Map(LegacyInner(h, phase20), p), Map(LegacyInner(h, phase20), q), 32);
    assert |p| == |Map(LegacyInner(h, phase20), p)| == |q|;
    if i :| 0 <= i < |p| && Remembered(phase20)(p[i]) != Remembered(phase20)(q[i]) {
      assert Map(LegacyInner(h, phase20), p)[i] == Map(LegacyInner(h, phase20), q)[i];
      assert p[i] in p && q[i] in q;
      BoundReceipt(f, phase20, p[i]);
      BoundReceipt(f, phase20, q[i]);
      a, b := LegacyInnerClash(h, f, Bound(phase20)(p[i]), Bound(phase20)(q[i]));
    } else {
      assert Map(Remembered(phase20), p) == Map(Remembered(phase20), q);
      a, b := [], [];
    }
  }

  lemma BoundReceipt(f: Foreign, phase20: bool, r: Receipt)
    requires ReceiptOk(f, r)
    ensures ReceiptOk(f, Bound(phase20)(r))
  {
    hide BodyOk, ExtOk, EncodeExt;
  }

  lemma ArrangedOk(f: Foreign, rs: seq<Receipt>, p: seq<Receipt>)
    requires AllOk(f, rs) && Arranged(rs, p)
    ensures AllOk(f, p)
  {
    hide ReceiptOk, SortedBy;
    forall r | r in p
      ensures ReceiptOk(f, r)
    {
      assert r in multiset(p);
    }
  }

  /** Equal legacy roots: the lists hold the same receipts up to signer key and signature, or the hash
      collides on two of the strings hashed. */
  lemma LegacyBinds(h: Hasher, f: Foreign, phase20: bool, rs: seq<Receipt>, rs': seq<Receipt>, root: Digest)
    returns (p: seq<Receipt>, q: seq<Receipt>, a: Bytes, b: Bytes)
    requires AllOk(f, rs) && AllOk(f, rs') && IsRoot(h, phase20, rs, root) && IsRoot(h, phase20, rs', root)
    ensures Arranged(rs, p) && Arranged(rs', q)
    ensures multiset(Map(Remembered(phase20), rs)) == multiset(Map(Remembered(phase20), rs')) ||
            LegacyClash(h, phase20, p, q, a, b)
  {
    hide LegacyOuter, AllOk, Map, SortedBy, LegacyPart;
    p :| Arranged(rs, p) && root == h(LegacyOuter(h, phase20, p));
    q :| Arranged(rs', q) && root == h(LegacyOuter(h, phase20, q));
    if LegacyOuter(h, phase20, p) != LegacyOuter(h, phase20, q) {
      a, b := LegacyOuter(h, phase20, p), LegacyOuter(h, phase20, q);
    } else {
      ArrangedOk(f, rs, p);
      ArrangedOk(f, rs', q);
      a, b := LegacyPlaces(h, f, phase20, p, q);
      MapPermutes(Remembered(phase20), rs, p);
      MapPermutes(Remembered(phase20), rs', q);
    }
  }
}
