/** The receipts roots of src/poawx.rs: the audited one, over receipts sorted by their inner
    hash, and the legacy one, over receipts sorted by a key that need not tell them apart.
    The hash function is a parameter; a result that rests on it names the two inputs, among
    those hashed for the roots in question, on which it would have to collide. */
module ReceiptsRoot {
  import opened Basics
  import opened Reading
  import opened Merkle
  import opened Sorting
  import opened ReceiptExt
  import opened ReceiptHead
  import opened Receipts

  // ---------- digests in byte-wise order ----------

  /** Digests sorted and put end to end. */
  function Sorted(ds: seq<Bytes>): Bytes {
    Concat(SortBy(LexLeq, ds))
  }

  lemma SortedOrderFree(ds: seq<Bytes>, ds': seq<Bytes>)
    requires multiset(ds) == multiset(ds')
    ensures Sorted(ds) == Sorted(ds')
  {
    hide SortBy, Concat, LexLeq;
    LexIsOrder();
    SortBySorted(LexLeq, ds);
    SortBySorted(LexLeq, ds');
    SortedUnique(LexLeq, SortBy(LexLeq, ds), SortBy(LexLeq, ds'));
  }

  /** What is put end to end are the digests in ascending byte-wise order. */
  lemma SortedAscends(ds: seq<Bytes>) returns (q: seq<Bytes>)
    ensures multiset(q) == multiset(ds) && Sorted(ds) == Concat(q)
    ensures forall i, j | 0 <= i < j < |q| :: !Precedes(q[j], q[i])
  {
    hide Concat, LexLeq, Precedes;
    LexIsOrder();
    q := SortBy(LexLeq, ds);
    SortBySorted(LexLeq, ds);
    hide SortBy;
    forall i, j | 0 <= i < j < |q|
      ensures !Precedes(q[j], q[i])
    {
      assert LexLeq(q[i], q[j]);
      NotBefore(q[i], q[j]);
    }
  }

  predicate AllWidth(ds: seq<Bytes>, n: nat) {
    forall d | d in ds :: |d| == n
  }

  lemma SortedWidth(ds: seq<Bytes>, n: nat)
    requires AllWidth(ds, n)
    ensures AllWidth(SortBy(LexLeq, ds), n)
  {
    hide SortBy;
    forall d | d in SortBy(LexLeq, ds)
      ensures |d| == n
    {
      assert d in multiset(SortBy(LexLeq, ds));
      assert d in ds;
    }
  }

  lemma {:induction false} ChunksEqual(a: seq<Bytes>, b: seq<Bytes>, n: nat)
    requires n > 0 && AllWidth(a, n) && AllWidth(b, n) && Concat(a) == Concat(b)
    ensures a == b
    decreases |a|
  {
    if a == [] || b == [] {
      FirstChunk(a);
      FirstChunk(b);
    } else {
      assert Concat(a)[..n] == a[0] && Concat(a)[n..] == Concat(a[1..]);
      assert Concat(b)[..n] == b[0] && Concat(b)[n..] == Concat(b[1..]);
      ChunksEqual(a[1..], b[1..], n);
      assert a == [a[0]] + a[1..] && b == [b[0]] + b[1..];
    }
  }

  lemma FirstChunk(a: seq<Bytes>)
    ensures a != [] ==> |Concat(a)| >= |a[0]|
    ensures a == [] ==> Concat(a) == []
  {}

  lemma SortedBinds(ds: seq<Bytes>, ds': seq<Bytes>)
    requires AllWidth(ds, 32) && AllWidth(ds', 32) && Sorted(ds) == Sorted(ds')
    ensures multiset(ds) == multiset(ds')
  {
    hide SortBy, AllWidth, Concat;
    SortedWidth(ds, 32);
    SortedWidth(ds', 32);
    ChunksEqual(SortBy(LexLeq, ds), SortBy(LexLeq, ds'), 32);
  }

  // ---------- the precommit root ----------

  /** role_precommit_root. */
  method RolePrecommitRoot(h: Hasher, leaves: seq<Digest>) returns (root: Digest)
    ensures root == h(Sorted(leaves))
  {
    var ds: seq<Bytes> := leaves;
    var sorted := SortBy(LexLeq, ds);
    var bytes := JoinAll(sorted);
    root := h(bytes);
  }

  method JoinAll(ds: seq<Bytes>) returns (out: Bytes)
    ensures out == Concat(ds)
  {
    out := [];
    var i := 0;
    assert ds[0..] == ds;
    while i < |ds|
      invariant i <= |ds|
      invariant out + Concat(ds[i..]) == Concat(ds)
    {
      JoinStep(out, ds, i);
      out, i := out + ds[i], i + 1;
    }
    assert ds[i..] == [] && out + [] == out;
  }

  lemma JoinStep(out: Bytes, ds: seq<Bytes>, i: nat)
    requires i < |ds|
    ensures out + Concat(ds[i..]) == out + ds[i] + Concat(ds[i + 1..])
  {
    assert ds[i..][1..] == ds[i + 1..];
  }

  /** Precommit roots agree on reordered leaves, and otherwise only by a collision. */
  lemma PrecommitExact(h: Hasher, leaves: seq<Digest>, leaves': seq<Digest>)
    ensures multiset(leaves) == multiset(leaves') ==> h(Sorted(leaves)) == h(Sorted(leaves'))
    ensures h(Sorted(leaves)) == h(Sorted(leaves')) ==>
              multiset(leaves) == multiset(leaves') || Collides(h, (Sorted(leaves), Sorted(leaves')))
  {
    hide Sorted;
    var ds: seq<Bytes>, ds': seq<Bytes> := leaves, leaves';
    if multiset(ds) == multiset(ds') { SortedOrderFree(ds, ds'); }
    if Sorted(ds) == Sorted(ds') { SortedBinds(ds, ds'); }
  }

  // ---------- the audited root ----------

  function DelegationDigest(h: Hasher, r: Receipt): (d: Bytes)
    ensures |d| == if r.delegation.Some? then 32 else 0
  {
    match r.delegation case None => [] case Some(d) => h(d)
  }

  function ExtDigest(h: Hasher, r: Receipt): (d: Bytes)
    ensures |d| == if r.ext.Some? then 32 else 0
  {
    match r.ext case None => [] case Some(e) => h(EncodeExt(e))
  }

  /** What the inner hash is taken of. */
  function Preimage(h: Hasher, r: Receipt): Bytes {
    BodyBytes(r.body) + (DelegationDigest(h, r) + ExtDigest(h, r))
  }

  /** The 166 bytes of the body, then the digest of the delegation and that of the extension, each if
      there is one. */
  lemma AuditLayout(h: Hasher, r: Receipt)
    requires BodyOk(r.body)
    ensures var s, n := Preimage(h, r), if r.delegation.Some? then 198 else 166;
            |s| == (if r.ext.Some? then n + 32 else n) && s[..166] == BodyBytes(r.body) &&
            (r.delegation.Some? ==> s[166..198] == h(r.delegation.value)) && (r.ext.Some? ==> s[n..] == h(EncodeExt(r.ext.value)))
  {
    hide EncodeExt, ParseBody;
    BodyRoundTrip(r.body, []);
    hide BodyBytes, BodyOk;
    var s, d, e := Preimage(h, r), DelegationDigest(h, r), ExtDigest(h, r);
    assert s[166..] == d + e;
    assert s[166..166 + |d|] == s[166..][..|d|] == d && s[166 + |d|..] == s[166..][|d|..] == e;
  }

  function Inner(h: Hasher): Receipt -> Bytes {
    r => h(Preimage(h, r))
  }

  /** What the outer hash is taken of: the inner hashes in byte-wise order. */
  function Outer(h: Hasher, rs: seq<Receipt>): Bytes {
    Sorted(Map(Inner(h), rs))
  }

  /** The receipt as far as a root binds it: before phase 20 the extension is ignored. */
  function Bound(phase20: bool): Receipt -> Receipt {
    (r: Receipt) => if phase20 then r else r.(ext := None)
  }

  function AuditRoot(h: Hasher, phase20: bool, rs: seq<Receipt>): Digest {
    h(Outer(h, Map(Bound(phase20), rs)))
  }

  /** The audited root does not depend on the order of the receipts. */
  lemma AuditOrderFree(h: Hasher, phase20: bool, rs: seq<Receipt>, rs': seq<Receipt>)
    requires multiset(rs) == multiset(rs')
    ensures AuditRoot(h, phase20, rs) == AuditRoot(h, phase20, rs')
  {
    hide Map, Sorted;
    var xs, xs' := Map(Bound(phase20), rs), Map(Bound(phase20), rs');
    MapPermutes(Bound(phase20), rs, rs');
    MapPermutes(Inner(h), xs, xs');
    SortedOrderFree(Map(Inner(h), xs), Map(Inner(h), xs'));
  }

  method ComputeAuditRoot(h: Hasher, phase20: bool, rs: seq<Receipt>) returns (root: Digest)
    ensures root == AuditRoot(h, phase20, rs)
  {
    hide Sorted, EncodeExt, BodyBytes, Preimage;
    var inners: seq<Bytes> := [];
    for i := 0 to |rs|
      invariant |inners| == i
      invariant forall k | 0 <= k < i :: inners[k] == Inner(h)(Bound(phase20)(rs[k]))
    {
      inners := inners + [h(Preimage(h, if phase20 then rs[i] else rs[i].(ext := None)))];
    }
    assert inners == Map(Inner(h), Map(Bound(phase20), rs));
    var sorted := SortBy(LexLeq, inners);
    var bytes := JoinAll(sorted);
    assert bytes == Sorted(inners) by { SortedIs(inners); }
    root := h(bytes);
  }

  lemma SortedIs(ds: seq<Bytes>)
    ensures Sorted(ds) == Concat(SortBy(LexLeq, ds))
  {}

  // ---------- what the audited root binds ----------

  /** The delegation or the extension, as hashed. */
  predicate Attached(r: Receipt, b: Bytes) {
    Some(b) == r.delegation || (r.ext.Some? && b == EncodeExt(r.ext.value))
  }

  /** The strings hashed on behalf of one receipt. */
  predicate Part(h: Hasher, r: Receipt, b: Bytes) {
    b == Preimage(h, r) || Attached(r, b)
  }

  /** The strings hashed on the way to the root. */
  ghost predicate Hashed(h: Hasher, rs: seq<Receipt>, b: Bytes) {
    b == Outer(h, rs) || exists r :: r in rs && Part(h, r, b)
  }

  ghost predicate AllOk(f: Foreign, rs: seq<Receipt>) {
    forall r | r in rs :: ReceiptOk(f, r)
  }

  ghost predicate Clash(h: Hasher, rs: seq<Receipt>, rs': seq<Receipt>, a: Bytes, b: Bytes) {
    Hashed(h, rs, a) && Hashed(h, rs', b) && Collides(h, (a, b))
  }

  lemma {:induction false} ClaimsLength(cs: seq<Claim>)
    requires ClaimsOk(cs)
    ensures |EncodeClaims(cs)| >= 121 * |cs|
    decreases |cs|
  {
    if cs == [] {
    } else {
      ClaimsLength(cs[1..]);
      assert |EncodeClaim(cs[0])| >= 121;
    }
  }

  /** An extension is never as short as a delegation. */
  lemma ExtIsLonger(f: Foreign, e: Ext)
    requires ExtOk(f, e)
    ensures |EncodeExt(e)| > DELEGATION_SIZE
  {
    hide EncodeClaims, EncodeAll, LeBytes;
    ClaimsLength(e.head.claims);
  }

  lemma ExtInjective(f: Foreign, e: Ext, e': Ext)
    requires ExtOk(f, e) && ExtOk(f, e') && EncodeExt(e) == EncodeExt(e')
    ensures e == e'
  {
    hide ExtOk, EncodeExt, ReadExt;
    ExtRoundTrip(f, e);
    ExtRoundTrip(f, e');
  }

  lemma BodyInjective(b: Body, b': Body)
    requires BodyOk(b) && BodyOk(b') && BodyBytes(b) == BodyBytes(b')
    ensures b == b'
  {
    hide BodyOk, BodyBytes, ParseBody;
    BodyRoundTrip(b, []);
    BodyRoundTrip(b', []);
  }

  lemma Halves(a: Bytes, b: Bytes, c: Bytes, d: Bytes)
    requires a + b == c + d && |a| == |c|
    ensures a == c && b == d
  {
    assert (a + b)[..|a|] == a && (a + b)[|a|..] == b;
    assert (c + d)[..|c|] == c && (c + d)[|c|..] == d;
  }

  /** Two receipts with one inner hash: two of the strings hashed for them collide. */
  lemma InnerClash(h: Hasher, f: Foreign, r: Receipt, r': Receipt) returns (a: Bytes, b: Bytes)
    requires ReceiptOk(f, r) && ReceiptOk(f, r') && r != r' && h(Preimage(h, r)) == h(Preimage(h, r'))
    ensures Part(h, r, a) && Part(h, r', b) && Collides(h, (a, b))
  {
    if Preimage(h, r) != Preimage(h, r') { return Preimage(h, r), Preimage(h, r'); }
    hide BodyOk, BodyBytes, ExtOk, EncodeExt;
    BodyRoundTrip(r.body, []);
    BodyRoundTrip(r'.body, []);
    Halves(BodyBytes(r.body), DelegationDigest(h, r) + ExtDigest(h, r),
           BodyBytes(r'.body), DelegationDigest(h, r') + ExtDigest(h, r'));
    BodyInjective(r.body, r'.body);
    a, b := TailClash(h, f, r, r');
  }

  lemma TailClash(h: Hasher, f: Foreign, r: Receipt, r': Receipt) returns (a: Bytes, b: Bytes)
    requires ReceiptOk(f, r) && ReceiptOk(f, r') && r != r' && r.body == r'.body
    requires DelegationDigest(h, r) + ExtDigest(h, r) == DelegationDigest(h, r') + ExtDigest(h, r')
    ensures Attached(r, a) && Attached(r', b) && Collides(h, (a, b))
  {
    hide BodyOk, BodyBytes, ExtOk, EncodeExt;
    if r.ext.Some? { ExtIsLonger(f, r.ext.value); }
    if r'.ext.Some? { ExtIsLonger(f, r'.ext.value); }
    if r.ext.Some? && r'.ext.Some? && EncodeExt(r.ext.value) == EncodeExt(r'.ext.value) {
      ExtInjective(f, r.ext.value, r'.ext.value);
    }
    if r.delegation.Some? == r'.delegation.Some? {
      Halves(DelegationDigest(h, r), ExtDigest(h, r), DelegationDigest(h, r'), ExtDigest(h, r'));
      if r.delegation != r'.delegation { return r.delegation.value, r'.delegation.value; }
      return EncodeExt(r.ext.value), EncodeExt(r'.ext.value);
    }
    if r.delegation.Some? {
      assert DelegationDigest(h, r) + ExtDigest(h, r) == ExtDigest(h, r') + [];
      Halves(DelegationDigest(h, r), ExtDigest(h, r), ExtDigest(h, r'), []);
      return r.delegation.value, EncodeExt(r'.ext.value);
    }
    assert ExtDigest(h, r) + [] == DelegationDigest(h, r') + ExtDigest(h, r');
    Halves(ExtDigest(h, r), [], DelegationDigest(h, r'), ExtDigest(h, r'));
    return EncodeExt(r.ext.value), r'.delegation.value;
  }

  lemma InnersWidth(h: Hasher, rs: seq<Receipt>)
    ensures AllWidth(Map(Inner(h), rs), 32)
  {
    var inners := Map(Inner(h), rs);
    forall d | d in inners
      ensures |d| == 32
    {
      var i :| 0 <= i < |inners| && inners[i] == d;
      assert d == Inner(h)(rs[i]);
    }
  }

  /** Equal outer bytes come from the same inner hashes. */
  lemma OuterBinds(h: Hasher, rs: seq<Receipt>, rs': seq<Receipt>)
    requires Outer(h, rs) == Outer(h, rs')
    ensures multiset(Map(Inner(h), rs)) == multiset(Map(Inner(h), rs'))
  {
    hide Sorted, Map, AllWidth;
    InnersWidth(h, rs);
    InnersWidth(h, rs');
    SortedBinds(Map(Inner(h), rs), Map(Inner(h), rs'));
  }

  /** Equal roots bind the same receipts, or the hash collides on two of the strings hashed. */
  lemma AuditBinds(h: Hasher, f: Foreign, rs: seq<Receipt>, rs': seq<Receipt>) returns (a: Bytes, b: Bytes)
    requires AllOk(f, rs) && AllOk(f, rs') && h(Outer(h, rs)) == h(Outer(h, rs'))
    ensures multiset(rs) == multiset(rs') || Clash(h, rs, rs', a, b)
  {
    hide ReceiptOk, Outer, Part, Map;
    if Outer(h, rs) != Outer(h, rs') { return Outer(h, rs), Outer(h, rs'); }
    OuterBinds(h, rs, rs');
    if !Merged(Inner(h), rs, rs') {
      MapReflects(Inner(h), rs, rs');
      return [], [];
    }
    var i, j :| 0 <= i < |rs| && 0 <= j < |rs'| && rs[i] != rs'[j] && Inner(h)(rs[i]) == Inner(h)(rs'[j]);
    assert rs[i] in rs && rs'[j] in rs';
    a, b := InnerClash(h, f, rs[i], rs'[j]);
  }

  lemma BoundOk(f: Foreign, phase20: bool, rs: seq<Receipt>)
    requires AllOk(f, rs)
    ensures AllOk(f, Map(Bound(phase20), rs))
  {
    hide BodyOk, ExtOk, EncodeExt;
    var xs := Map(Bound(phase20), rs);
    forall x | x in xs
      ensures ReceiptOk(f, x)
    {
      var i :| 0 <= i < |xs| && xs[i] == x;
      assert x == Bound(phase20)(rs[i]) && rs[i] in rs;
    }
  }

  /** A receipt without its extension. */
  function Bare(r: Receipt): Receipt { r.(ext := None) }

  lemma BoundIs(phase20: bool, rs: seq<Receipt>)
    ensures Map(Bound(phase20), rs) == if phase20 then rs else Map(Bare, rs)
  {}

  /** The same for the root as computed: from phase 20 on it binds the receipts, before that the receipts
      without their extensions. */
  lemma AuditRootBinds(h: Hasher, f: Foreign, phase20: bool, rs: seq<Receipt>, rs': seq<Receipt>)
    returns (a: Bytes, b: Bytes)
    requires AllOk(f, rs) && AllOk(f, rs') && AuditRoot(h, phase20, rs) == AuditRoot(h, phase20, rs')
    ensures var xs, xs' := if phase20 then rs else Map(Bare, rs), if phase20 then rs' else Map(Bare, rs');
            multiset(xs) == multiset(xs') || Clash(h, xs, xs', a, b)
  {
    BoundIs(phase20, rs);
    BoundIs(phase20, rs');
    hide Outer, Clash, AllOk, Map;
    BoundOk(f, phase20, rs);
    BoundOk(f, phase20, rs');
    a, b := AuditBinds(h, f, Map(Bound(phase20), rs), Map(Bound(phase20), rs'));
  }
}
