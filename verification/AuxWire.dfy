/** The wire form of a merge-mining proof, src/auxpow.rs. */
module AuxWire {
  import opened Basics
  import opened Reading
  import opened Merkle
  import opened AuxPow

  // ---------- a path ----------

  function Digests(ds: seq<Digest>): Bytes
    decreases |ds|
  {
    if ds == [] then []
    else
      var first: Bytes := ds[0];
      first + Digests(ds[1..])
  }

  function ReadDigests(s: Bytes, count: nat): (r: Option<Read<seq<Digest>>>)
    ensures r.Some? ==> r.value.used <= |s| && |r.value.value| == count
    decreases count, s
  {
    if count == 0 then Some(Read([], 0))
    else if |s| < 32 then None
    else match ReadDigests(s[32..], count - 1)
      case None => None
      case Some(rest) => (var d: Digest := s[..32]; Some(Read([d] + rest.value, 32 + rest.used)))
  }

  /** The loop that reads the siblings of a path. */
  method ParseDigests(data: Bytes, start: nat, count: nat) returns (r: Option<Read<seq<Digest>>>)
    requires start <= |data|
    ensures r == ReadDigests(data[start..], count)
  {
    hide ReadDigests;
    var found: seq<Digest> := [];
    var off, i := start, 0;
    AfterNothing(ReadDigests(data[start..], count));
    while i < count
      invariant i <= count && start <= off <= |data|
      invariant After(found, off - start, ReadDigests(data[off..], count - i)) == ReadDigests(data[start..], count)
    {
      DigestsUnfold(data, off, count - i);
      if |data| < off + 32 { return None; }
      AfterOne(found, off - start, data[off..off + 32], 32, ReadDigests(data[off + 32..], count - i - 1));
      found, off, i := found + [data[off..off + 32]], off + 32, i + 1;
    }
    NoDigests(data[off..]);
    assert found + [] == found;
    r := Some(Read(found, off - start));
  }

  lemma NoDigests(s: Bytes)
    ensures ReadDigests(s, 0) == Some(Read([], 0))
  {}

  lemma DigestsUnfold(data: Bytes, off: nat, count: nat)
    requires off <= |data| && count > 0
    ensures ReadDigests(data[off..], count) ==
            if |data| < off + 32 then None
            else After([data[off..off + 32]], 32, ReadDigests(data[off + 32..], count - 1))
  {
    if off + 32 <= |data| {
      assert data[off..][..32] == data[off..off + 32] && data[off..][32..] == data[off + 32..];
    }
  }

  lemma ReadDigestsStep(d: Digest, u: Bytes, count: nat)
    requires ReadDigests(u, count).Some?
    ensures var first: Bytes := d; var rest := ReadDigests(u, count).value;
            ReadDigests(first + u, count + 1) == Some(Read([d] + rest.value, 32 + rest.used))
  {
    var first: Bytes := d;
    assert (first + u)[..32] == d && (first + u)[32..] == u;
  }

  lemma DigestsStep(ds: seq<Digest>, t: Bytes)
    requires ds != []
    ensures var first: Bytes := ds[0]; Digests(ds) + t == first + (Digests(ds[1..]) + t)
    ensures |Digests(ds)| == 32 + |Digests(ds[1..])|
  {}

  lemma {:induction false} DigestsRoundTrip(ds: seq<Digest>, t: Bytes)
    ensures ReadDigests(Digests(ds) + t, |ds|) == Some(Read(ds, |Digests(ds)|))
    decreases |ds|
  {
    hide ReadDigests, Digests;
    if ds == [] {
      NoDigestBytes(t);
    } else {
      DigestsRoundTrip(ds[1..], t);
      ReadDigestsStep(ds[0], Digests(ds[1..]) + t, |ds| - 1);
      DigestsStep(ds, t);
      assert ds == [ds[0]] + ds[1..];
    }
  }

  lemma NoDigestBytes(t: Bytes)
    ensures Digests([]) == [] && ReadDigests(Digests([]) + t, 0) == Some(Read([], 0))
  {}

  function PathBytes(path: Path): Bytes
    requires |path.siblings| < 0x1_0000_0000_0000_0000
  {
    VarintBytes(|path.siblings|) + (Digests(path.siblings) + LeBytes(path.index, 4))
  }

  function ReadPath(s: Bytes): (r: Option<Read<Path>>)
    ensures r.Some? ==> r.value.used <= |s| && |r.value.value.siblings| <= MAX_BRANCH_DEPTH
  {
    match Varint(s)
    case None => None
    case Some(n) =>
      if n.value > MAX_BRANCH_DEPTH then None
      else match ReadDigests(s[n.used..], n.value)
        case None => None
        case Some(ds) =>
          var at := n.used + ds.used;
          if |s| < at + 4 then None
          else Some(Read(Path(ds.value, Word32(s[at..at + 4])), at + 4))
  }

  /** A path reads back exactly when it is no deeper than the limit; a deeper one is refused. */
  lemma PathRoundTrip(path: Path, t: Bytes)
    requires |path.siblings| < 0x1_0000_0000_0000_0000
    ensures ReadPath(PathBytes(path) + t) ==
            if |path.siblings| <= MAX_BRANCH_DEPTH then Some(Read(path, |PathBytes(path)|)) else None
  {
    hide VarintBytes, Varint, Digests, ReadDigests, LeBytes, LeValue;
    var v, ds, ix := VarintBytes(|path.siblings|), Digests(path.siblings), LeBytes(path.index, 4);
    var s := PathBytes(path) + t;
    assert s == v + (ds + (ix + t));
    VarintRoundTrip(|path.siblings|, ds + (ix + t));
    assert s[|v|..] == ds + (ix + t);
    DigestsRoundTrip(path.siblings, ix + t);
    var at := |v| + |ds|;
    assert s[at..] == ix + t;
    assert s[at..at + 4] == ix;
    Pow256Values();
    LeRoundTrip(path.index, 4);
  }

  // ---------- a proof ----------

  predicate Sized(ap: Proof) {
    |ap.coinbase| < 0x1_0000_0000_0000_0000 && |ap.parentHeader| == 80 &&
    |ap.coinbasePath.siblings| < 0x1_0000_0000_0000_0000 && |ap.chainPath.siblings| < 0x1_0000_0000_0000_0000
  }

  predicate Bounded(ap: Proof) {
    |ap.coinbase| <= 1_000_000 && |ap.coinbasePath.siblings| <= 20 && |ap.chainPath.siblings| <= 20
  }

  function ProofBytes(ap: Proof): Bytes
    requires Sized(ap)
  {
    var parent: Bytes := ap.parentHash;
    VarintBytes(|ap.coinbase|) + (ap.coinbase + (parent + (PathBytes(ap.coinbasePath) + (PathBytes(ap.chainPath) + ap.parentHeader))))
  }

  function ReadProof(s: Bytes): (r: Option<Read<Proof>>)
    ensures r.Some? ==> r.value.used <= |s| && Sized(r.value.value)
  {
    match Varint(s)
    case None => None
    case Some(n) =>
      if n.value > MAX_COINBASE || |s| < n.used + n.value + 32 then None
      else
        var a := n.used + n.value;
        match ReadPath(s[a + 32..])
        case None => None
        case Some(p) =>
          match ReadPath(s[a + 32 + p.used..])
          case None => None
          case Some(q) =>
            var b := a + 32 + p.used + q.used;
            if |s| < b + 80 then None
            else Some(Read(Proof(s[n.used..a], s[a..a + 32], p.value, q.value, s[b..b + 80]), b + 80))
  }

  /** A proof reads back, using exactly its own bytes, if and only if it keeps to the limits. */
  lemma ProofRoundTripIff(ap: Proof, t: Bytes)
    requires Sized(ap)
    ensures ReadProof(ProofBytes(ap) + t) == if Bounded(ap) then Some(Read(ap, |ProofBytes(ap)|)) else None
  {
    hide VarintBytes, Varint, PathBytes, ReadPath;
    var v: Bytes, c: Bytes, h: Bytes := VarintBytes(|ap.coinbase|), ap.coinbase, ap.parentHash;
    var p, q := PathBytes(ap.coinbasePath), PathBytes(ap.chainPath);
    var s := ProofBytes(ap) + t;
    var u := q + (ap.parentHeader + t);
    assert s == v + (c + (h + (p + u)));
    VarintRoundTrip(|c|, c + (h + (p + u)));
    Pieces(s, v, c, h, p, q, ap.parentHeader, t);
    PathRoundTrip(ap.coinbasePath, u);
    PathRoundTrip(ap.chainPath, ap.parentHeader + t);
  }

  lemma Pieces(s: Bytes, v: Bytes, c: Bytes, h: Bytes, p: Bytes, q: Bytes, header: Bytes, t: Bytes)
    requires |h| == 32 && |header| == 80 && s == v + (c + (h + (p + (q + (header + t)))))
    ensures var a := |v| + |c|; var b := a + 32 + |p| + |q|;
            |s| >= b + 80 && s[|v|..a] == c && s[a..a + 32] == h && s[a + 32..] == p + (q + (header + t)) &&
            s[a + 32 + |p|..] == q + (header + t) && s[b..b + 80] == header
  {
    var a := |v| + |c|;
    var b := a + 32 + |p| + |q|;
    assert s[a..] == h + (p + (q + (header + t)));
    assert s[a + 32..] == p + (q + (header + t));
    assert s[b..] == header + t;
    assert s[b..b + 80] == s[b..][..80];
  }
}
