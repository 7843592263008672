/** The whole receipt extension of src/poawx.rs: head, optional precommit root, sections. */
module ReceiptHead {
  import opened Basics
  import opened Reading
  import opened ReceiptExt

  const REWARD_SIZE: nat := 60
  const CLAIM_FIXED: nat := 118

  /** PoawxRoleClaim: its fixed prefix and the optional commitment hash. */
  datatype Claim = Claim(fixed: Bytes, commitment: Option<Bytes>)

  predicate ClaimOk(c: Claim) {
    |c.fixed| == CLAIM_FIXED && (c.commitment.Some? ==> |c.commitment.value| == 32)
  }

  function ClaimBytes(c: Claim): Bytes {
    c.fixed + (match c.commitment case None => [0] case Some(h) => [1] + h)
  }

  /** The claim decoder: exact length, or nothing. */
  function ParseClaim(s: Bytes): Option<Claim> {
    if |s| < CLAIM_FIXED + 1 then None
    else if s[CLAIM_FIXED] == 0 then
      if |s| == CLAIM_FIXED + 1 then Some(Claim(s[..CLAIM_FIXED], None)) else None
    else if s[CLAIM_FIXED] == 1 then
      if |s| == CLAIM_FIXED + 33 then Some(Claim(s[..CLAIM_FIXED], Some(s[CLAIM_FIXED + 1..]))) else None
    else None
  }

  /** The claim decoder and encoder are inverse to each other, on all byte strings. */
  lemma ClaimBijective(s: Bytes, c: Claim)
    ensures ParseClaim(s) == Some(c) <==> ClaimOk(c) && s == ClaimBytes(c)
  {
    if ParseClaim(s) == Some(c) {
      if s[CLAIM_FIXED] == 0 {
        assert s == s[..CLAIM_FIXED] + [0];
      } else {
        assert s == s[..CLAIM_FIXED] + ([1] + s[CLAIM_FIXED + 1..]);
      }
    }
    if ClaimOk(c) && s == ClaimBytes(c) {
      assert s[..CLAIM_FIXED] == c.fixed;
      if c.commitment.Some? { assert s[CLAIM_FIXED + 1..] == c.commitment.value; }
    }
  }

  // ---------- the three length-prefixed claims ----------

  function EncodeClaim(c: Claim): Bytes {
    LeBytes(|ClaimBytes(c)|, 2) + ClaimBytes(c)
  }

  function EncodeClaims(cs: seq<Claim>): Bytes
    decreases |cs|
  {
    if cs == [] then [] else EncodeClaim(cs[0]) + EncodeClaims(cs[1..])
  }

  predicate ClaimsOk(cs: seq<Claim>)
    decreases |cs|
  {
    cs == [] || (ClaimOk(cs[0]) && ClaimsOk(cs[1..]))
  }

  function ReadClaim(s: Bytes): (r: Option<Read<Claim>>)
    ensures r.Some? ==> r.value.used <= |s|
  {
    match Number(s, 2)
    case None => None
    case Some(len) =>
      if |s| < 2 + len.value then None
      else match ParseClaim(s[2..2 + len.value])
        case None => None
        case Some(c) => Some(Read(c, 2 + len.value))
  }

  function ReadClaims(s: Bytes, count: nat): (r: Option<Read<seq<Claim>>>)
    ensures r.Some? ==> r.value.used <= |s|
    decreases count, s
  {
    if count == 0 then Some(Read([], 0))
    else match ReadClaim(s)
      case None => None
      case Some(c) =>
        match ReadClaims(s[c.used..], count - 1)
        case None => None
        case Some(rest) => Some(Read([c.value] + rest.value, c.used + rest.used))
  }

  lemma ClaimRoundTrip(c: Claim, t: Bytes)
    requires ClaimOk(c)
    ensures ReadClaim(EncodeClaim(c) + t) == Some(Read(c, |EncodeClaim(c)|))
  {
    var b := ClaimBytes(c);
    var s := EncodeClaim(c) + t;
    assert |b| < 0x1_0000;
    ClaimBijective(b, c);
    hide LeBytes, Number, ParseClaim, ClaimBytes;
    assert s == LeBytes(|b|, 2) + (b + t);
    CountBytes(|b|, b + t);
    assert s[2..2 + |b|] == b;
  }

  lemma ClaimExact(s: Bytes)
    requires ReadClaim(s).Some?
    ensures var r := ReadClaim(s).value; ClaimOk(r.value) && EncodeClaim(r.value) == s[..r.used]
  {
    hide LeBytes, LeValue, ParseClaim, ClaimBytes;
    NumberBytes(s, 2);
    var len := Number(s, 2).value.value;
    ClaimBijective(s[2..2 + len], ReadClaim(s).value.value);
    assert s[..2 + len] == s[..2] + s[2..2 + len];
  }

  lemma ReadClaimsStep(c: Claim, u: Bytes, count: nat)
    requires ClaimOk(c) && ReadClaims(u, count).Some?
    ensures var rest := ReadClaims(u, count).value;
            ReadClaims(EncodeClaim(c) + u, count + 1) == Some(Read([c] + rest.value, |EncodeClaim(c)| + rest.used))
  {
    hide EncodeClaim, ReadClaim, ClaimOk;
    ClaimRoundTrip(c, u);
    assert (EncodeClaim(c) + u)[|EncodeClaim(c)|..] == u;
  }

  lemma EncodeClaimsStep(cs: seq<Claim>, t: Bytes)
    requires cs != []
    ensures EncodeClaims(cs) + t == EncodeClaim(cs[0]) + (EncodeClaims(cs[1..]) + t)
    ensures |EncodeClaims(cs)| == |EncodeClaim(cs[0])| + |EncodeClaims(cs[1..])|
  {
    hide EncodeClaim;
  }

  lemma NoClaims(t: Bytes)
    ensures ReadClaims(EncodeClaims([]) + t, 0) == Some(Read([], |EncodeClaims([])|))
  {}

  lemma FirstClaimOk(cs: seq<Claim>)
    requires cs != [] && ClaimsOk(cs)
    ensures ClaimOk(cs[0]) && ClaimsOk(cs[1..])
  {}

  lemma {:induction false} ClaimsRoundTrip(cs: seq<Claim>, t: Bytes)
    requires ClaimsOk(cs)
    ensures ReadClaims(EncodeClaims(cs) + t, |cs|) == Some(Read(cs, |EncodeClaims(cs)|))
    decreases |cs|
  {
    hide EncodeClaim, ReadClaim, ClaimOk, ClaimsOk, ReadClaims, EncodeClaims;
    if cs == [] {
      NoClaims(t);
    } else {
      FirstClaimOk(cs);
      var u := EncodeClaims(cs[1..]) + t;
      ClaimsRoundTrip(cs[1..], t);
      ReadClaimsStep(cs[0], u, |cs| - 1);
      EncodeClaimsStep(cs, t);
      assert cs == [cs[0]] + cs[1..];
    }
  }

  lemma ClaimsJoin(s: Bytes, c: Read<Claim>, rest: Read<seq<Claim>>)
    requires c.used + rest.used <= |s| && ClaimOk(c.value) && ClaimsOk(rest.value)
    requires EncodeClaim(c.value) == s[..c.used] && EncodeClaims(rest.value) == s[c.used..][..rest.used]
    ensures ClaimsOk([c.value] + rest.value)
    ensures EncodeClaims([c.value] + rest.value) == s[..c.used + rest.used]
  {
    hide EncodeClaim, ClaimOk;
    assert ([c.value] + rest.value)[1..] == rest.value;
    assert s[..c.used + rest.used] == s[..c.used] + s[c.used..][..rest.used];
  }

  lemma {:induction false} ClaimsExact(s: Bytes, count: nat)
    requires ReadClaims(s, count).Some?
    ensures var r := ReadClaims(s, count).value;
            |r.value| == count && ClaimsOk(r.value) && EncodeClaims(r.value) == s[..r.used]
    decreases count
  {
    if count == 0 {
    } else {
      hide EncodeClaim, ReadClaim, ClaimOk;
      ClaimExact(s);
      var c := ReadClaim(s).value;
      ClaimsExact(s[c.used..], count - 1);
      var rest := ReadClaims(s[c.used..], count - 1).value;
      ClaimsJoin(s, c, rest);
    }
  }

  // ---------- the extension ----------

  datatype Head = Head(reward: Bytes, claims: seq<Claim>, feeBps: u16, feePkh: Bytes)

  datatype Ext = Ext(head: Head, precommit: Option<Bytes>, sections: Sections)

  predicate HeadOk(h: Head) {
    |h.reward| == REWARD_SIZE && |h.claims| == 3 && ClaimsOk(h.claims) && |h.feePkh| == 20
  }

  ghost predicate SectionsOk(f: Foreign, m: Sections) {
    forall k | k in m :: m[k].kind == k && SectionOk(f, m[k])
  }

  ghost predicate ExtOk(f: Foreign, e: Ext) {
    HeadOk(e.head) && (e.precommit.Some? ==> |e.precommit.value| == 32) && SectionsOk(f, e.sections)
  }

  function EncodeHead(h: Head): Bytes {
    ([EXT_VERSION] + h.reward) + (EncodeClaims(h.claims) + (LeBytes(h.feeBps, 2) + h.feePkh))
  }

  function ReadHead(s: Bytes): (r: Option<Read<Head>>)
    ensures r.Some? ==> r.value.used <= |s|
  {
    if |s| < 1 + REWARD_SIZE || s[0] != EXT_VERSION then None
    else match ReadClaims(s[1 + REWARD_SIZE..], 3)
      case None => None
      case Some(c) =>
        var at := 1 + REWARD_SIZE + c.used;
        if |s| < at + 22 then None
        else
          Pow256Values();
          LeBytesOfValue(s[at..at + 2]);
          Some(Read(Head(s[1..1 + REWARD_SIZE], c.value, LeValue(s[at..at + 2]), s[at + 2..at + 22]), at + 22))
  }

  /** The optional precommit root: end of input, or a flag byte and what it announces. */
  function ReadFlag(s: Bytes): (r: Option<Read<Option<Bytes>>>)
    ensures r.Some? ==> r.value.used <= |s|
  {
    if s == [] then Some(Read(None, 0))
    else if s[0] == 0 then Some(Read(None, 1))
    else if s[0] != 1 || |s| < 33 then None
    else Some(Read(Some(s[1..33]), 33))
  }

  /** The parser of the whole extension; it must use every byte. */
  function ReadExt(f: Foreign, s: Bytes): Option<Ext> {
    match ReadHead(s)
    case None => None
    case Some(h) =>
      match ReadFlag(s[h.used..])
      case None => None
      case Some(p) =>
        match ReadSections(f, s[h.used..][p.used..], map[])
        case None => None
        case Some(m) => Some(Ext(h.value, p.value, m))
  }

  /** The sections in the order the serializer writes them. */
  function InOrder(ks: seq<SectionKind>, m: Sections): seq<Section>
    decreases |ks|
  {
    if ks == [] then []
    else (if ks[0] in m then [m[ks[0]]] else []) + InOrder(ks[1..], m)
  }

  function Flag(e: Ext): Bytes {
    match e.precommit
    case Some(root) => [1] + root
    case None => if e.sections == map[] then [] else [0]
  }

  function EncodeExt(e: Ext): Bytes {
    EncodeHead(e.head) + (Flag(e) + EncodeAll(InOrder(KINDS, e.sections)))
  }

  // ---------- what the parser accepts ----------

  lemma HeadRoundTrip(h: Head, t: Bytes)
    requires HeadOk(h)
    ensures ReadHead(EncodeHead(h) + t) == Some(Read(h, |EncodeHead(h)|))
  {
    hide LeBytes, LeValue, ReadClaims, EncodeClaims, ClaimsOk;
    var c, fee := EncodeClaims(h.claims), LeBytes(h.feeBps, 2);
    var u := (fee + h.feePkh) + t;
    var s := EncodeHead(h) + t;
    assert s == ([EXT_VERSION] + h.reward) + (c + u);
    assert s[1 + REWARD_SIZE..] == c + u;
    assert s[1..1 + REWARD_SIZE] == h.reward;
    ClaimsRoundTrip(h.claims, u);
    HeadTail(s, h.reward, c, fee, h.feePkh, t);
    Pow256Values();
    LeRoundTrip(h.feeBps, 2);
  }

  lemma HeadTail(s: Bytes, reward: Bytes, c: Bytes, fee: Bytes, pkh: Bytes, t: Bytes)
    requires |reward| == REWARD_SIZE && |fee| == 2 && |pkh| == 20
    requires s == ([EXT_VERSION] + reward) + (c + ((fee + pkh) + t))
    ensures var at := 1 + REWARD_SIZE + |c|; |s| >= at + 22 && s[at..at + 2] == fee && s[at + 2..at + 22] == pkh
  {
    var at := 1 + REWARD_SIZE + |c|;
    assert s[at..] == (fee + pkh) + t;
    assert s[at..at + 2] == s[at..][..2] && s[at + 2..at + 22] == s[at..][2..22];
  }

  lemma HeadExact(s: Bytes)
    requires ReadHead(s).Some?
    ensures var r := ReadHead(s).value; HeadOk(r.value) && EncodeHead(r.value) == s[..r.used]
  {
    hide LeBytes, LeValue, ReadClaims, EncodeClaims, ClaimsOk;
    ClaimsExact(s[1 + REWARD_SIZE..], 3);
    var c := ReadClaims(s[1 + REWARD_SIZE..], 3).value;
    var at := 1 + REWARD_SIZE + c.used;
    LeBytesOfValue(s[at..at + 2]);
    HeadParts(s, at);
    assert s[1 + REWARD_SIZE..at] == s[1 + REWARD_SIZE..][..c.used];
  }

  lemma HeadParts(s: Bytes, at: nat)
    requires 1 + REWARD_SIZE <= at && at + 22 <= |s| && s[0] == EXT_VERSION
    ensures ([EXT_VERSION] + s[1..1 + REWARD_SIZE]) + (s[1 + REWARD_SIZE..at] + (s[at..at + 2] + s[at + 2..at + 22])) == s[..at + 22]
  {
    assert s[at..at + 22] == s[at..at + 2] + s[at + 2..at + 22];
    assert [EXT_VERSION] + s[1..1 + REWARD_SIZE] == s[..1 + REWARD_SIZE];
  }

  /** The flag bytes the parser lets stand before the given sections. */
  predicate FlagFits(flag: Bytes, precommit: Option<Bytes>, order: seq<Section>) {
    match precommit
    case Some(root) => |root| == 32 && flag == [1] + root
    case None => flag == [0] || (flag == [] && order == [])
  }

  lemma FlagRoundTrip(flag: Bytes, precommit: Option<Bytes>, order: seq<Section>)
    requires FlagFits(flag, precommit, order)
    ensures ReadFlag(flag + EncodeAll(order)) == Some(Read(precommit, |flag|))
  {
    hide EncodeSection;
    var s := flag + EncodeAll(order);
    if precommit.Some? { assert s[1..33] == precommit.value; }
  }

  /** Every such layout is accepted: any order of the sections, a zero flag always allowed. */
  lemma ExtAccepts(f: Foreign, h: Head, precommit: Option<Bytes>, flag: Bytes, order: seq<Section>)
    requires HeadOk(h) && FlagFits(flag, precommit, order) && Fits(f, order, map[])
    ensures ReadExt(f, EncodeHead(h) + (flag + EncodeAll(order))) == Some(Ext(h, precommit, Collect(order, map[])))
  {
    hide ReadHead, EncodeHead, HeadOk, ReadFlag, EncodeAll, ReadSections, Collect, Fits, FlagFits;
    var t := flag + EncodeAll(order);
    var s := EncodeHead(h) + t;
    HeadRoundTrip(h, t);
    assert s[|EncodeHead(h)|..] == t;
    FlagRoundTrip(flag, precommit, order);
    assert t[|flag|..] == EncodeAll(order);
    SectionsRoundTrip(f, order, map[]);
  }

  /** Nothing else is accepted: an accepted string is such a layout of the value returned. */
  lemma ExtExact(f: Foreign, s: Bytes) returns (flag: Bytes, order: seq<Section>)
    requires ReadExt(f, s).Some?
    ensures var e := ReadExt(f, s).value;
            s == EncodeHead(e.head) + (flag + EncodeAll(order)) && HeadOk(e.head) &&
            FlagFits(flag, e.precommit, order) && Fits(f, order, map[]) && e.sections == Collect(order, map[])
  {
    hide ReadHead, EncodeHead, HeadOk, EncodeAll, ReadSections, Collect, Fits;
    HeadExact(s);
    var h := ReadHead(s).value;
    var u := s[h.used..];
    var p := ReadFlag(u).value;
    flag := u[..p.used];
    order := SectionsExact(f, u[p.used..], map[]);
    if u == [] { EmptyOrder(order); }
    if p.value.Some? { assert flag == [1] + p.value.value; }
    assert s == s[..h.used] + (u[..p.used] + u[p.used..]);
  }

  lemma EmptyOrder(order: seq<Section>)
    requires EncodeAll(order) == []
    ensures order == []
  {}

  // ---------- the serializer's own layout ----------

  predicate KindsApart(ks: seq<SectionKind>) {
    forall i, j | 0 <= i < j < |ks| :: ks[i] != ks[j]
  }

  lemma {:induction false} InOrderFits(f: Foreign, ks: seq<SectionKind>, m: Sections, seen: Sections)
    requires KindsApart(ks) && SectionsOk(f, m) && forall k | k in ks :: k !in seen
    ensures Fits(f, InOrder(ks, m), seen)
    decreases |ks|
  {
    if ks == [] {
    } else {
      hide SectionOk;
      var k, rest := ks[0], ks[1..];
      assert ks == [k] + rest;
      forall k' | k' in rest
        ensures k' != k
      {
        var j :| 0 <= j < |rest| && rest[j] == k';
        assert ks[j + 1] == k';
      }
      if k in m {
        var order := InOrder(ks, m);
        assert order[0] == m[k] && order[1..] == InOrder(rest, m);
        InOrderFits(f, rest, m, seen[k := m[k]]);
      } else {
        assert InOrder(ks, m) == InOrder(rest, m);
        InOrderFits(f, rest, m, seen);
      }
    }
  }

  lemma {:induction false} InOrderMembers(ks: seq<SectionKind>, m: Sections, s: Section)
    requires forall k | k in m :: m[k].kind == k
    ensures s in InOrder(ks, m) <==> s.kind in ks && s.kind in m && m[s.kind] == s
    decreases |ks|
  {
    if ks == [] {
    } else {
      InOrderMembers(ks[1..], m, s);
      assert ks == [ks[0]] + ks[1..];
    }
  }

  lemma AllKinds(k: SectionKind)
    ensures k in KINDS && KindsApart(KINDS)
  {
    match k
    case Ticket => assert KINDS[0] == k;
    case Dominance => assert KINDS[1] == k;
    case Candidate => assert KINDS[2] == k;
    case Puzzle => assert KINDS[3] == k;
    case Finality => assert KINDS[4] == k;
    case Committed => assert KINDS[5] == k;
    case TrueVrf => assert KINDS[6] == k;
    case Fraud => assert KINDS[7] == k;
    case Proposer => assert KINDS[8] == k;
    case Registration => assert KINDS[9] == k;
  }

  lemma InOrderHolds(f: Foreign, m: Sections)
    requires SectionsOk(f, m)
    ensures Holds(m, InOrder(KINDS, m), map[])
  {
    hide InOrder, SectionOk;
    forall s
      ensures s in InOrder(KINDS, m) <==> s.kind in m && m[s.kind] == s
    {
      InOrderMembers(KINDS, m, s);
      AllKinds(s.kind);
    }
  }

  lemma InOrderCollects(f: Foreign, m: Sections)
    requires SectionsOk(f, m)
    ensures Fits(f, InOrder(KINDS, m), map[]) && Collect(InOrder(KINDS, m), map[]) == m
  {
    hide InOrder, Fits, Collect, Holds, SectionsOk, KindsApart;
    AllKinds(Ticket);
    InOrderFits(f, KINDS, m, map[]);
    CollectHolds(f, InOrder(KINDS, m), map[]);
    InOrderHolds(f, m);
    HoldsUnique(m, Collect(InOrder(KINDS, m), map[]), InOrder(KINDS, m), InOrder(KINDS, m));
  }

  /** An extension reads back as itself. */
  lemma ExtRoundTrip(f: Foreign, e: Ext)
    requires ExtOk(f, e)
    ensures ReadExt(f, EncodeExt(e)) == Some(e)
  {
    hide ReadExt, EncodeHead, HeadOk, EncodeAll, Collect, Fits, SectionOk, InOrder;
    var order := InOrder(KINDS, e.sections);
    InOrderCollects(f, e.sections);
    if e.sections == map[] { NoSections(order, f); }
    ExtAccepts(f, e.head, e.precommit, Flag(e), order);
  }

  lemma NoSections(order: seq<Section>, f: Foreign)
    requires Fits(f, order, map[]) && Collect(order, map[]) == map[]
    ensures order == []
  {
    CollectHolds(f, order, map[]);
    assert forall s | s in order :: s.kind in Collect(order, map[]);
  }

  lemma CollectOk(f: Foreign, order: seq<Section>)
    requires Fits(f, order, map[])
    ensures SectionsOk(f, Collect(order, map[]))
  {
    hide Fits, Collect, SectionOk;
    CollectHolds(f, order, map[]);
    FitsApart(f, order, map[]);
  }

  /** Any accepted extension is well formed, and writing it out again keeps its value. */
  lemma Reserialized(f: Foreign, s: Bytes)
    requires ReadExt(f, s).Some?
    ensures ExtOk(f, ReadExt(f, s).value)
    ensures ReadExt(f, EncodeExt(ReadExt(f, s).value)) == ReadExt(f, s)
  {
    hide ReadExt, EncodeHead, HeadOk, EncodeAll, Collect, Fits, SectionOk, InOrder, EncodeExt;
    var flag, order := ExtExact(f, s);
    CollectOk(f, order);
    ExtRoundTrip(f, ReadExt(f, s).value);
  }
}
