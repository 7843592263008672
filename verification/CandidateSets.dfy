/** The candidate set of src/poawx_candidate.rs on the wire and in the admission commitment of
    src/poawx_committed_admission.rs. */
module CandidateSets {
  import opened Basics
  import opened Reading
  import opened Merkle
  import opened Candidates

  const CANDIDATE_WIRE: nat := 175
  const MAX_CANDIDATES: nat := 256
  const SET_HEADER: nat := 43

  predicate CandidateOk(c: Candidate) {
    |c.pkh| == 20 && |c.assignmentKey| == 33 && |c.ticket| == 32 && |c.proof| == 32 && |c.claim| == 32
  }

  // ---------- one candidate ----------

  function EncodeCandidate(c: Candidate): Bytes {
    [c.role] + (c.pkh + (c.assignmentKey + (c.ticket + ([c.penaltyStatus] + (c.proof +
      (LeBytes(c.dominance, 8) + (LeBytes(c.penaltyWeight, 8) + (LeBytes(c.score, 8) + c.claim))))))))
  }

  function DecodeCandidate(s: Bytes): Candidate
    requires |s| == CANDIDATE_WIRE
  {
    Candidate(s[0], s[1..21], s[21..54], s[54..86], s[86], s[87..119],
              Word64(s[119..127]), Word64(s[127..135]), Word64(s[135..143]), s[143..175])
  }

  lemma Slices(s: Bytes, c: Candidate, d: Bytes, p: Bytes, e: Bytes)
    requires CandidateOk(c) && |d| == |p| == |e| == 8
    requires s == [c.role] + (c.pkh + (c.assignmentKey + (c.ticket + ([c.penaltyStatus] + (c.proof + (d + (p + (e + c.claim))))))))
    ensures |s| == CANDIDATE_WIRE && s[0] == c.role && s[1..21] == c.pkh && s[21..54] == c.assignmentKey
    ensures s[54..86] == c.ticket && s[86] == c.penaltyStatus && s[87..119] == c.proof
    ensures s[119..127] == d && s[127..135] == p && s[135..143] == e && s[143..175] == c.claim
  {}

  lemma CandidateRoundTrip(c: Candidate)
    requires CandidateOk(c)
    ensures |EncodeCandidate(c)| == CANDIDATE_WIRE && DecodeCandidate(EncodeCandidate(c)) == c
  {
    hide LeBytes, Word64, CandidateOk;
    var d, p, e := LeBytes(c.dominance, 8), LeBytes(c.penaltyWeight, 8), LeBytes(c.score, 8);
    Slices(EncodeCandidate(c), c, d, p, e);
    Word64Back(c.dominance);
    Word64Back(c.penaltyWeight);
    Word64Back(c.score);
  }

  lemma Pieces(s: Bytes)
    requires |s| == CANDIDATE_WIRE
    ensures s == [s[0]] + (s[1..21] + (s[21..54] + (s[54..86] + ([s[86]] + (s[87..119] +
                   (s[119..127] + (s[127..135] + (s[135..143] + s[143..175]))))))))
  {
    assert s[127..175] == s[127..135] + (s[135..143] + s[143..175]);
    assert s[87..175] == s[87..119] + (s[119..127] + s[127..175]);
    assert s[54..175] == s[54..86] + ([s[86]] + s[87..175]);
    assert s == [s[0]] + (s[1..21] + (s[21..54] + s[54..175]));
  }

  lemma CandidateExact(s: Bytes)
    requires |s| == CANDIDATE_WIRE
    ensures CandidateOk(DecodeCandidate(s)) && EncodeCandidate(DecodeCandidate(s)) == s
  {
    hide LeBytes, Word64;
    Pieces(s);
    Word64Bytes(s[119..127]);
    Word64Bytes(s[127..135]);
    Word64Bytes(s[135..143]);
  }

  // ---------- a set ----------

  datatype CandidateSet = CandidateSet(network: byte, height: u64, seed: Bytes, candidates: seq<Candidate>)

  predicate AllOk(cs: seq<Candidate>)
    decreases |cs|
  {
    cs == [] || (CandidateOk(cs[0]) && AllOk(cs[1..]))
  }

  predicate SetOk(s: CandidateSet) {
    |s.seed| == 32 && AllOk(s.candidates)
  }

  function EncodeList(cs: seq<Candidate>): Bytes
    decreases |cs|
  {
    if cs == [] then [] else EncodeCandidate(cs[0]) + EncodeList(cs[1..])
  }

  /** The count as it is written: cast to 16 bits. */
  function Count16(n: nat): u16 {
    n % 0x1_0000
  }

  function EncodeSet(s: CandidateSet): Bytes {
    ([s.network] + (LeBytes(s.height, 8) + (s.seed + LeBytes(Count16(|s.candidates|), 2)))) + EncodeList(s.candidates)
  }

  function DecodeList(b: Bytes, count: nat): seq<Candidate>
    requires |b| == count * CANDIDATE_WIRE
    decreases count
  {
    if count == 0 then []
    else [DecodeCandidate(b[..CANDIDATE_WIRE])] + DecodeList(b[CANDIDATE_WIRE..], count - 1)
  }

  function DecodeSet(b: Bytes): Option<CandidateSet> {
    if |b| < SET_HEADER then None
    else
      var count := LeValue(b[41..43]);
      if count > MAX_CANDIDATES || |b| != SET_HEADER + count * CANDIDATE_WIRE then None
      else Some(CandidateSet(b[0], Word64(b[1..9]), b[9..41], DecodeList(b[SET_HEADER..], count)))
  }

  lemma DecodeStep(cs: seq<Candidate>, b: Bytes, off: nat, count: nat)
    requires count > 0 && off <= |b| && |b[off..]| == count * CANDIDATE_WIRE
    ensures |b[off + CANDIDATE_WIRE..]| == (count - 1) * CANDIDATE_WIRE
    ensures cs + DecodeList(b[off..], count)
         == cs + [DecodeCandidate(b[off..off + CANDIDATE_WIRE])] + DecodeList(b[off + CANDIDATE_WIRE..], count - 1)
  {
    hide DecodeCandidate;
    assert b[off..][..CANDIDATE_WIRE] == b[off..off + CANDIDATE_WIRE];
    assert b[off..][CANDIDATE_WIRE..] == b[off + CANDIDATE_WIRE..];
  }

  /** The deserializer's loop over the candidates. */
  method ParseList(b: Bytes, start: nat, count: nat) returns (cs: seq<Candidate>)
    requires |b| == start + count * CANDIDATE_WIRE
    ensures cs == DecodeList(b[start..], count)
  {
    hide DecodeCandidate, DecodeList;
    cs := [];
    var off, i := start, 0;
    assert cs + DecodeList(b[start..], count) == DecodeList(b[start..], count);
    while i < count
      invariant i <= count && off == start + i * CANDIDATE_WIRE
      invariant |b[off..]| == (count - i) * CANDIDATE_WIRE
      invariant cs + DecodeList(b[off..], count - i) == DecodeList(b[start..], count)
    {
      DecodeStep(cs, b, off, count - i);
      cs, off, i := cs + [DecodeCandidate(b[off..off + CANDIDATE_WIRE])], off + CANDIDATE_WIRE, i + 1;
    }
    DecodeNone(cs, b[off..]);
  }

  lemma DecodeNone(cs: seq<Candidate>, b: Bytes)
    requires b == []
    ensures cs + DecodeList(b, 0) == cs
  {}

  lemma {:induction false} ListRoundTrip(cs: seq<Candidate>)
    requires AllOk(cs)
    ensures |EncodeList(cs)| == |cs| * CANDIDATE_WIRE && DecodeList(EncodeList(cs), |cs|) == cs
    decreases |cs|
  {
    hide EncodeCandidate, DecodeCandidate, CandidateOk;
    if cs == [] {
    } else {
      CandidateRoundTrip(cs[0]);
      ListRoundTrip(cs[1..]);
      hide DecodeList, AllOk;
      DecodeFirst(cs[0], EncodeList(cs[1..]), |cs| - 1);
      assert cs == [cs[0]] + cs[1..];
    }
  }

  lemma DecodeFirst(c: Candidate, u: Bytes, count: nat)
    requires |EncodeCandidate(c)| == CANDIDATE_WIRE && DecodeCandidate(EncodeCandidate(c)) == c
    requires |u| == count * CANDIDATE_WIRE
    ensures DecodeList(EncodeCandidate(c) + u, count + 1) == [c] + DecodeList(u, count)
  {
    hide EncodeCandidate, DecodeCandidate;
    var b := EncodeCandidate(c) + u;
    assert b[..CANDIDATE_WIRE] == EncodeCandidate(c) && b[CANDIDATE_WIRE..] == u;
  }

  lemma {:induction false} ListExact(b: Bytes, count: nat)
    requires |b| == count * CANDIDATE_WIRE
    ensures var cs := DecodeList(b, count); |cs| == count && AllOk(cs) && EncodeList(cs) == b
    decreases count
  {
    if count == 0 {
    } else {
      hide EncodeCandidate, DecodeCandidate, CandidateOk;
      CandidateExact(b[..CANDIDATE_WIRE]);
      ListExact(b[CANDIDATE_WIRE..], count - 1);
      var rest := DecodeList(b[CANDIDATE_WIRE..], count - 1);
      assert DecodeList(b, count)[1..] == rest;
      assert b == b[..CANDIDATE_WIRE] + b[CANDIDATE_WIRE..];
    }
  }

  lemma HeaderSlices(b: Bytes, network: byte, h: Bytes, seed: Bytes, n: Bytes, list: Bytes)
    requires |h| == 8 && |seed| == 32 && |n| == 2
    requires b == ([network] + (h + (seed + n))) + list
    ensures |b| == SET_HEADER + |list| && b[0] == network && b[1..9] == h && b[9..41] == seed
    ensures b[41..43] == n && b[SET_HEADER..] == list
  {}

  lemma EncodedSet(s: CandidateSet)
    requires SetOk(s)
    ensures var b := EncodeSet(s);
            |b| == SET_HEADER + |s.candidates| * CANDIDATE_WIRE && b[0] == s.network && Word64(b[1..9]) == s.height &&
            b[9..41] == s.seed && LeValue(b[41..43]) == Count16(|s.candidates|) && b[SET_HEADER..] == EncodeList(s.candidates)
  {
    hide LeBytes, LeValue, Word64, EncodeList, AllOk, Count16;
    var n := Count16(|s.candidates|);
    HeaderSlices(EncodeSet(s), s.network, LeBytes(s.height, 8), s.seed, LeBytes(n, 2), EncodeList(s.candidates));
    Word64Back(s.height);
    Pow256Values();
    LeRoundTrip(n, 2);
    ListRoundTrip(s.candidates);
  }

  lemma CountFits(n: nat)
    ensures n < 0x1_0000 ==> Count16(n) == n
    ensures n >= 0x1_0000 ==> Count16(n) != n
  {}

  /** A set reads back exactly when it has at most 256 candidates; a larger one is rejected. */
  lemma SetRoundTripIff(s: CandidateSet)
    requires SetOk(s)
    ensures |s.candidates| <= 256 ==> DecodeSet(EncodeSet(s)) == Some(s)
    ensures |s.candidates| > 256 ==> DecodeSet(EncodeSet(s)) == None
  {
    hide EncodeSet, DecodeList, EncodeList, Word64, LeValue, AllOk, Count16;
    EncodedSet(s);
    ListRoundTrip(s.candidates);
    CountFits(|s.candidates|);
  }

  /** Whatever the decoder takes is the encoding of the set it returns. */
  lemma SetExact(b: Bytes)
    requires DecodeSet(b).Some?
    ensures SetOk(DecodeSet(b).value) && EncodeSet(DecodeSet(b).value) == b
  {
    hide LeBytes, LeValue, Word64, EncodeList, DecodeList, AllOk, Count16;
    var count := LeValue(b[41..43]);
    ListExact(b[SET_HEADER..], count);
    CountFits(count);
    LeBytesOfValue(b[41..43]);
    Word64Bytes(b[1..9]);
    assert b == ([b[0]] + (b[1..9] + (b[9..41] + b[41..43]))) + b[SET_HEADER..];
  }

  /** Sets with one encoding are one set, however many candidates they have. */
  lemma SetInjective(s: CandidateSet, s': CandidateSet)
    requires SetOk(s) && SetOk(s') && EncodeSet(s) == EncodeSet(s')
    ensures s == s'
  {
    hide EncodeSet, EncodeList, DecodeList, Word64, LeValue, AllOk, Count16;
    EncodedSet(s);
    EncodedSet(s');
    ListRoundTrip(s.candidates);
    ListRoundTrip(s'.candidates);
  }

  // ---------- the commitment ----------

  function Root(h: Hasher, domain: Bytes, s: CandidateSet): Digest {
    h(domain + EncodeSet(s))
  }

  datatype Commitment = Commitment(network: byte, height: u64, seed: Bytes, root: Digest, count: u16)

  function Saturated16(n: nat): u16 {
    if n < 0xffff then n else 0xffff
  }

  predicate Matches(h: Hasher, domain: Bytes, m: Commitment, s: CandidateSet) {
    Root(h, domain, s) == m.root && Saturated16(|s.candidates|) == m.count &&
    s.seed == m.seed && s.network == m.network && s.height == m.height
  }

  function Committed(h: Hasher, domain: Bytes, s: CandidateSet): Commitment {
    Commitment(s.network, s.height, s.seed, Root(h, domain, s), Saturated16(|s.candidates|))
  }

  /** A commitment fits exactly the sets it could have been made from: network, height and seed agree,
      the count is the number of candidates, saturated, and the root is the hash of domain and set. */
  lemma FitsIff(h: Hasher, domain: Bytes, m: Commitment, s: CandidateSet)
    ensures Matches(h, domain, m, s) <==> m == Committed(h, domain, s)
    ensures Committed(h, domain, s) ==
            Commitment(s.network, s.height, s.seed, h(domain + EncodeSet(s)), if |s.candidates| <= 65535 then |s.candidates| else 65535)
  {
    hide EncodeSet;
  }

  /** A commitment fits the set it was made from; two sets that fit one commitment are the same
      set, unless the hash collides on what their roots are taken of. */
  lemma CommitmentBinds(h: Hasher, domain: Bytes, m: Commitment, s: CandidateSet, s': CandidateSet)
    requires SetOk(s) && SetOk(s')
    ensures Matches(h, domain, Committed(h, domain, s), s)
    ensures Matches(h, domain, m, s) && Matches(h, domain, m, s') ==>
              s == s' || Collides(h, (domain + EncodeSet(s), domain + EncodeSet(s')))
  {
    hide EncodeSet, SetOk;
    if domain + EncodeSet(s) == domain + EncodeSet(s') {
      assert (domain + EncodeSet(s))[|domain|..] == EncodeSet(s);
      assert (domain + EncodeSet(s'))[|domain|..] == EncodeSet(s');
      SetInjective(s, s');
    }
  }

  /** Hence best_for_role answers alike, absence included, for every role of two sets that fit one
      commitment, or the hash collides. */
  lemma SameWinners(h: Hasher, domain: Bytes, m: Commitment, s: CandidateSet, s': CandidateSet)
    requires SetOk(s) && SetOk(s') && Matches(h, domain, m, s) && Matches(h, domain, m, s')
    ensures (forall r: byte :: Best(s.candidates, r) == Best(s'.candidates, r)) ||
            Collides(h, (domain + EncodeSet(s), domain + EncodeSet(s')))
  {
    hide EncodeSet, SetOk, Matches, Best;
    CommitmentBinds(h, domain, m, s, s');
  }
}
