/** Candidate selection of src/poawx_candidate.rs: the order in which candidates are ranked, the
    canonical order of a set, and the winner of a role. */
module Candidates {
  import opened Basics
  import opened Reading
  import opened Sorting

  datatype Candidate = Candidate(
    role: byte, pkh: Bytes, assignmentKey: Bytes, ticket: Bytes, penaltyStatus: byte, proof: Bytes,
    dominance: u64, penaltyWeight: u64, score: u64, claim: Bytes)

  predicate LexLess(a: Bytes, b: Bytes) {
    a != b && LexLeq(a, b)
  }

  // ---------- ranking ----------

  /** candidate_better: the higher score, then the smaller proof digest, worker and ticket. */
  predicate Better(a: Candidate, b: Candidate) {
    if a.score != b.score then a.score > b.score
    else if a.proof != b.proof then LexLess(a.proof, b.proof)
    else if a.pkh != b.pkh then LexLess(a.pkh, b.pkh)
    else LexLess(a.ticket, b.ticket)
  }

  ghost predicate AtMost(a: Bytes, b: Bytes) {
    a == b || Precedes(a, b)
  }

  /** c does not rank above b: b has the higher score; or the same, and the smaller proof digest; or
      the same, and the smaller worker; or the same, and no larger a ticket. */
  ghost predicate NoBetter(c: Candidate, b: Candidate) {
    c.score <= b.score &&
    (c.score == b.score ==>
       AtMost(b.proof, c.proof) &&
       (b.proof == c.proof ==>
          AtMost(b.pkh, c.pkh) &&
          (b.pkh == c.pkh ==> AtMost(b.ticket, c.ticket))))
  }

  lemma BetterExact(c: Candidate, b: Candidate)
    ensures NoBetter(c, b) <==> !Better(c, b)
  {
    LexExact(b.proof, c.proof);
    LexExact(b.pkh, c.pkh);
    LexExact(b.ticket, c.ticket);
    LexTotal(b.proof, c.proof);
    LexTotal(b.pkh, c.pkh);
    LexTotal(b.ticket, c.ticket);
    hide Precedes;
  }

  lemma AtMostTransitive(a: Bytes, b: Bytes, c: Bytes)
    requires AtMost(a, b) && AtMost(b, c)
    ensures AtMost(a, c) && (a == c ==> a == b)
  {
    hide Precedes;
    LexExact(a, b);
    LexExact(b, c);
    LexExact(a, c);
    LexTransitive(a, b, c);
    LexTotal(a, b);
  }

  lemma NoBetterTransitive(a: Candidate, b: Candidate, c: Candidate)
    requires NoBetter(a, b) && NoBetter(b, c)
    ensures NoBetter(a, c)
  {
    hide AtMost;
    if a.score == c.score {
      AtMostTransitive(c.proof, b.proof, a.proof);
      if a.proof == c.proof {
        AtMostTransitive(c.pkh, b.pkh, a.pkh);
        if a.pkh == c.pkh { AtMostTransitive(c.ticket, b.ticket, a.ticket); }
      }
    }
  }

  lemma BetterAsymmetric(a: Candidate, b: Candidate)
    requires Better(a, b)
    ensures !Better(b, a)
  {
    LexTotal(a.proof, b.proof);
    LexTotal(a.pkh, b.pkh);
    LexTotal(a.ticket, b.ticket);
  }

  lemma LexLessTransitive(a: Bytes, b: Bytes, c: Bytes)
    requires LexLess(a, b) && LexLess(b, c)
    ensures LexLess(a, c)
  {
    LexTransitive(a, b, c);
    LexTotal(a, b);
  }

  lemma BetterTransitive(a: Candidate, b: Candidate, c: Candidate)
    requires Better(a, b) && Better(b, c)
    ensures Better(a, c)
  {
    if LexLess(a.proof, b.proof) && LexLess(b.proof, c.proof) { LexLessTransitive(a.proof, b.proof, c.proof); }
    if LexLess(a.pkh, b.pkh) && LexLess(b.pkh, c.pkh) { LexLessTransitive(a.pkh, b.pkh, c.pkh); }
    if LexLess(a.ticket, b.ticket) && LexLess(b.ticket, c.ticket) { LexLessTransitive(a.ticket, b.ticket, c.ticket); }
  }

  /** The sort key of the canonical order. */
  datatype Key = Key(role: byte, pkh: Bytes, ticket: Bytes, proof: Bytes)

  function KeyOf(): Candidate -> Key {
    (c: Candidate) => Key(c.role, c.pkh, c.ticket, c.proof)
  }

  /** Candidates of one role are ranked, unless they have the same key. */
  lemma BetterTotal(a: Candidate, b: Candidate)
    requires a.role == b.role && KeyOf()(a) != KeyOf()(b)
    ensures Better(a, b) || Better(b, a)
  {
    LexTotal(a.proof, b.proof);
    LexTotal(a.pkh, b.pkh);
    LexTotal(a.ticket, b.ticket);
  }

  // ---------- the canonical order ----------

  predicate KeyLess(a: Key, b: Key) {
    a.role < b.role ||
    (a.role == b.role &&
     (if a.pkh != b.pkh then LexLess(a.pkh, b.pkh)
      else if a.ticket != b.ticket then LexLess(a.ticket, b.ticket)
      else LexLess(a.proof, b.proof)))
  }

  predicate KeyLeq(a: Key, b: Key) {
    a == b || KeyLess(a, b)
  }

  predicate CandidateLeq(a: Candidate, b: Candidate) {
    KeyLeq(KeyOf()(a), KeyOf()(b))
  }

  /** The canonical order is the byte-wise order of role, worker, ticket and proof digest put together. */
  lemma KeyExact(a: Key, b: Key)
    requires |a.pkh| == |b.pkh| && |a.ticket| == |b.ticket| && |a.proof| == |b.proof|
    ensures KeyLess(a, b) <==>
            Precedes([a.role] + (a.pkh + (a.ticket + a.proof)), [b.role] + (b.pkh + (b.ticket + b.proof)))
  {
    LexConcat([a.role], a.pkh + (a.ticket + a.proof), [b.role], b.pkh + (b.ticket + b.proof));
    LexConcat(a.pkh, a.ticket + a.proof, b.pkh, b.ticket + b.proof);
    LexConcat(a.ticket, a.proof, b.ticket, b.proof);
    LexExact([a.role] + (a.pkh + (a.ticket + a.proof)), [b.role] + (b.pkh + (b.ticket + b.proof)));
    if a != b { KeyBytesDiffer(a, b); }
    assert LexLeq([a.role], [b.role]) <==> a.role <= b.role;
    PrecedesNotItself([a.role] + (a.pkh + (a.ticket + a.proof)));
    hide Precedes, LexLeq;
  }

  lemma KeyBytesDiffer(a: Key, b: Key)
    requires |a.pkh| == |b.pkh| && |a.ticket| == |b.ticket| && |a.proof| == |b.proof| && a != b
    ensures [a.role] + (a.pkh + (a.ticket + a.proof)) != [b.role] + (b.pkh + (b.ticket + b.proof))
  {
    if [a.role] + (a.pkh + (a.ticket + a.proof)) == [b.role] + (b.pkh + (b.ticket + b.proof)) {
      KeyBytesFix(a, b);
      assert false;
    }
  }

  lemma KeyBytesFix(a: Key, b: Key)
    requires |a.pkh| == |b.pkh| && |a.ticket| == |b.ticket| && |a.proof| == |b.proof|
    requires [a.role] + (a.pkh + (a.ticket + a.proof)) == [b.role] + (b.pkh + (b.ticket + b.proof))
    ensures a == b
  {
    var x, y := a.pkh + (a.ticket + a.proof), b.pkh + (b.ticket + b.proof);
    assert ([a.role] + x)[0] == a.role && ([b.role] + y)[0] == b.role;
    assert x == ([a.role] + x)[1..] && y == ([b.role] + y)[1..];
    assert a.pkh == x[..|a.pkh|] && b.pkh == y[..|a.pkh|];
    var x', y' := x[|a.pkh|..], y[|a.pkh|..];
    assert x' == a.ticket + a.proof && y' == b.ticket + b.proof;
    assert a.ticket == x'[..|a.ticket|] && b.ticket == y'[..|a.ticket|];
    assert a.proof == x'[|a.ticket|..] && b.proof == y'[|a.ticket|..];
  }

  lemma KeyTotal(a: Key, b: Key)
    ensures KeyLeq(a, b) || KeyLeq(b, a)
    ensures !(KeyLess(a, b) && KeyLeq(b, a))
  {
    LexTotal(a.pkh, b.pkh);
    LexTotal(a.ticket, b.ticket);
    LexTotal(a.proof, b.proof);
  }

  lemma KeyTransitive(a: Key, b: Key, c: Key)
    requires KeyLess(a, b) && KeyLess(b, c)
    ensures KeyLess(a, c)
  {
    if LexLess(a.pkh, b.pkh) && LexLess(b.pkh, c.pkh) { LexLessTransitive(a.pkh, b.pkh, c.pkh); }
    if LexLess(a.ticket, b.ticket) && LexLess(b.ticket, c.ticket) { LexLessTransitive(a.ticket, b.ticket, c.ticket); }
    if LexLess(a.proof, b.proof) && LexLess(b.proof, c.proof) { LexLessTransitive(a.proof, b.proof, c.proof); }
  }

  lemma KeyIsOrder()
    ensures TotalOrder(KeyLeq) && Preorder(CandidateLeq)
  {
    hide KeyLess;
    forall a, b
      ensures (KeyLeq(a, b) || KeyLeq(b, a)) && (KeyLeq(a, b) && KeyLeq(b, a) ==> a == b)
    {
      KeyTotal(a, b);
    }
    forall a, b, c | KeyLeq(a, b) && KeyLeq(b, c)
      ensures KeyLeq(a, c)
    {
      if KeyLess(a, b) && KeyLess(b, c) { KeyTransitive(a, b, c); }
    }
  }

  /** Strictly increasing keys, as is_canonical checks pair by pair. */
  predicate Canonical(cs: seq<Candidate>) {
    forall i, j | 0 <= i < j < |cs| :: KeyLess(KeyOf()(cs[i]), KeyOf()(cs[j]))
  }

  /** Whether a list has no two candidates with one key. */
  predicate KeysDistinct(cs: seq<Candidate>) {
    forall i, j | 0 <= i < j < |cs| :: KeyOf()(cs[i]) != KeyOf()(cs[j])
  }

  /** The windows(2) scan decides strict order of the whole list. */
  method IsCanonical(cs: seq<Candidate>) returns (ok: bool)
    ensures ok == Canonical(cs)
  {
    hide KeyLess;
    var i := 0;
    while i + 1 < |cs|
      invariant 0 <= i && (i == 0 || i < |cs|)
      invariant Canonical(cs[..if i < |cs| then i + 1 else 0])
    {
      if !KeyLess(KeyOf()(cs[i]), KeyOf()(cs[i + 1])) { return false; }
      Extended(cs, i);
      i := i + 1;
    }
    assert cs[..if i < |cs| then i + 1 else 0] == cs;
    ok := true;
  }

  lemma Extended(cs: seq<Candidate>, i: nat)
    requires i + 1 < |cs| && Canonical(cs[..i + 1]) && KeyLess(KeyOf()(cs[i]), KeyOf()(cs[i + 1]))
    ensures Canonical(cs[..i + 2])
  {
    hide KeyLess;
    var longer := cs[..i + 2];
    forall j, k | 0 <= j < k < |longer|
      ensures KeyLess(KeyOf()(longer[j]), KeyOf()(longer[k]))
    {
      assert longer[j] == cs[..i + 1][j];
      if k <= i {
        assert longer[k] == cs[..i + 1][k];
      } else if j < i {
        assert KeyLess(KeyOf()(cs[..i + 1][j]), KeyOf()(cs[..i + 1][i]));
        KeyTransitive(KeyOf()(cs[j]), KeyOf()(cs[i]), KeyOf()(cs[i + 1]));
      }
    }
  }

  /** Sorted by key, a list is canonical exactly when its keys are distinct. */
  lemma CanonicalIff(cs: seq<Candidate>)
    requires SortedBy(CandidateLeq, cs)
    ensures Canonical(cs) <==> KeysDistinct(cs)
  {
    hide KeyLess;
    forall i, j | 0 <= i < j < |cs|
      ensures KeyLess(KeyOf()(cs[i]), KeyOf()(cs[j])) <==> KeyOf()(cs[i]) != KeyOf()(cs[j])
    {
      assert CandidateLeq(cs[i], cs[j]);
      KeyTotal(KeyOf()(cs[i]), KeyOf()(cs[j]));
    }
  }

  /** Sorting makes any two arrangements of candidates with distinct keys one list. */
  lemma SortCanonical(cs: seq<Candidate>, cs': seq<Candidate>)
    requires multiset(cs) == multiset(cs') && KeysDistinct(cs)
    ensures SortBy(CandidateLeq, cs) == SortBy(CandidateLeq, cs') && Canonical(SortBy(CandidateLeq, cs))
  {
    hide KeyLess, SortBy;
    var p, q := SortBy(CandidateLeq, cs), SortBy(CandidateLeq, cs');
    KeyIsOrder();
    SortBySorted(CandidateLeq, cs);
    SortBySorted(CandidateLeq, cs');
    DistinctPermuted(cs, p);
    DistinctPermuted(cs, q);
    CanonicalIff(p);
    MapPermutes(KeyOf(), p, q);
    SortedUnique(KeyLeq, Map(KeyOf(), p), Map(KeyOf(), q));
    SameKeysSame(p, q);
  }

  lemma SameKeysSame(p: seq<Candidate>, q: seq<Candidate>)
    requires multiset(p) == multiset(q) && KeysDistinct(p) && Map(KeyOf(), p) == Map(KeyOf(), q)
    ensures p == q
  {
    assert |p| == |Map(KeyOf(), p)| == |q|;
    forall i | 0 <= i < |p|
      ensures p[i] == q[i]
    {
      assert q[i] in multiset(p);
      var j :| 0 <= j < |p| && p[j] == q[i];
      assert Map(KeyOf(), p)[i] == Map(KeyOf(), q)[i];
      KeyFixes(p, p[i], p[j]);
    }
  }

  lemma DistinctPermuted(cs: seq<Candidate>, p: seq<Candidate>)
    requires multiset(cs) == multiset(p) && KeysDistinct(cs)
    ensures KeysDistinct(p)
  {
    forall i, j | 0 <= i < j < |p|
      ensures KeyOf()(p[i]) != KeyOf()(p[j])
    {
      if KeyOf()(p[i]) == KeyOf()(p[j]) {
        assert p[i] in multiset(cs) && p[j] in multiset(cs);
        KeyFixes(cs, p[i], p[j]);
        TwiceIn(p, i, j);
        OnceIn(cs, p[i]);
        assert false;
      }
    }
  }

  lemma KeyFixes(cs: seq<Candidate>, a: Candidate, b: Candidate)
    requires KeysDistinct(cs) && a in cs && b in cs && KeyOf()(a) == KeyOf()(b)
    ensures a == b
  {
    var i :| 0 <= i < |cs| && cs[i] == a;
    var j :| 0 <= j < |cs| && cs[j] == b;
  }

  lemma {:induction false} OnceIn(cs: seq<Candidate>, c: Candidate)
    requires KeysDistinct(cs)
    ensures multiset(cs)[c] <= 1
  {
    if cs == [] {
    } else {
      var rest := cs[1..];
      assert cs == [cs[0]] + rest;
      assert KeysDistinct(rest) by {
        forall i, j | 0 <= i < j < |rest|
          ensures KeyOf()(rest[i]) != KeyOf()(rest[j])
        {
          assert KeyOf()(cs[i + 1]) != KeyOf()(cs[j + 1]);
        }
      }
      OnceIn(rest, c);
      if c == cs[0] { NotAgain(cs); }
    }
  }

  lemma NotAgain(cs: seq<Candidate>)
    requires cs != [] && KeysDistinct(cs)
    ensures cs[0] !in cs[1..]
  {
    forall j | 0 <= j < |cs| - 1
      ensures cs[1..][j] != cs[0]
    {
      assert KeyOf()(cs[0]) != KeyOf()(cs[j + 1]);
    }
  }

  // ---------- the winner of a role ----------

  /** b wins role r: of that role, and better than every other candidate of it. */
  ghost predicate Wins(cs: seq<Candidate>, r: byte, b: Candidate) {
    b in cs && b.role == r && forall c | c in cs && c.role == r :: c == b || Better(b, c)
  }

  /** The candidate kept after looking at the list from the front. */
  function Best(cs: seq<Candidate>, r: byte): Option<Candidate>
    decreases |cs|
  {
    if cs == [] then None else Kept(Best(cs[..|cs| - 1], r), cs[|cs| - 1], r)
  }

  function Kept(best: Option<Candidate>, c: Candidate, r: byte): Option<Candidate> {
    if c.role == r && (best.None? || Better(c, best.value)) then Some(c) else best
  }

  /** best_for_role. */
  method BestForRole(cs: seq<Candidate>, r: byte) returns (best: Option<Candidate>)
    ensures best == Best(cs, r)
    ensures best.None? <==> forall c | c in cs :: c.role != r
    ensures best.Some? ==> exists i: nat :: FirstBest(cs, r, i) && best.value == cs[i]
    ensures best.Some? && KeysDistinct(cs) ==> Wins(cs, r, best.value)
  {
    hide Better;
    best := None;
    for i := 0 to |cs|
      invariant best == Best(cs[..i], r)
    {
      assert cs[..i + 1][..i] == cs[..i];
      if cs[i].role == r {
        if best.None? {
          best := Some(cs[i]);
        } else if Better(cs[i], best.value) {
          best := Some(cs[i]);
        }
      }
    }
    assert cs[..|cs|] == cs;
    hide Best;
    BestStands(cs, r);
    if best.Some? {
      var i := BestIsFirst(cs, r);
      if KeysDistinct(cs) { UnbeatenWins(cs, r, best.value); }
    }
  }

  /** Candidate i is of the role, none of the role ranks above it, and it ranks above every earlier one. */
  ghost predicate FirstBest(cs: seq<Candidate>, r: byte, i: nat) {
    i < |cs| && cs[i].role == r &&
    (forall j | 0 <= j < |cs| && cs[j].role == r :: NoBetter(cs[j], cs[i])) &&
    (forall j | 0 <= j < i && cs[j].role == r :: !NoBetter(cs[i], cs[j]))
  }

  lemma {:induction false} BestIsFirst(cs: seq<Candidate>, r: byte) returns (i: nat)
    requires Best(cs, r).Some?
    ensures FirstBest(cs, r, i) && Best(cs, r).value == cs[i]
    decreases |cs|
  {
    hide Better, NoBetter;
    var n := |cs| - 1;
    var before, c := cs[..n], cs[n];
    var best := Best(before, r);
    BetterExact(c, c);
    NotBetterSelf(c);
    if best.None? {
      i := n;
      BestStands(before, r);
      forall j | 0 <= j < n ensures cs[j].role != r { assert cs[j] == before[j] && before[j] in before; }
    } else {
      i := BestIsFirst(before, r);
      BetterExact(c, before[i]);
      forall j | 0 <= j < n && cs[j].role == r
        ensures NoBetter(cs[j], before[i])
      {
        assert cs[j] == before[j];
      }
      if c.role == r && Better(c, before[i]) {
        Overtakes(cs, r, i);
        i := n;
      } else {
        forall j | 0 <= j < i && cs[j].role == r
          ensures !NoBetter(cs[i], cs[j])
        {
          assert cs[j] == before[j];
        }
      }
    }
  }

  /** The last candidate, if it ranks above the best so far, is the first best. */
  lemma Overtakes(cs: seq<Candidate>, r: byte, i: nat)
    requires i < |cs| - 1 && cs[|cs| - 1].role == r && Better(cs[|cs| - 1], cs[i])
    requires forall j | 0 <= j < |cs| - 1 && cs[j].role == r :: NoBetter(cs[j], cs[i])
    ensures FirstBest(cs, r, |cs| - 1)
  {
    hide Better, NoBetter;
    var n := |cs| - 1;
    BetterExact(cs[n], cs[n]);
    NotBetterSelf(cs[n]);
    BetterExact(cs[n], cs[i]);
    BetterAsymmetric(cs[n], cs[i]);
    BetterExact(cs[i], cs[n]);
    forall j | 0 <= j < n && cs[j].role == r
      ensures NoBetter(cs[j], cs[n]) && !NoBetter(cs[n], cs[j])
    {
      NoBetterTransitive(cs[j], cs[i], cs[n]);
      if NoBetter(cs[n], cs[j]) { NoBetterTransitive(cs[n], cs[j], cs[i]); }
    }
  }

  /** What is kept is of the role and unbeaten; nothing is kept only if the role has no candidate. */
  lemma {:induction false} BestStands(cs: seq<Candidate>, r: byte)
    ensures Best(cs, r).None? <==> forall c | c in cs :: c.role != r
    ensures Best(cs, r).Some? ==>
              Best(cs, r).value in cs && Best(cs, r).value.role == r && Unbeaten(cs, r, Best(cs, r).value)
    decreases |cs|
  {
    hide Better;
    if cs == [] {
    } else {
      var before, c := cs[..|cs| - 1], cs[|cs| - 1];
      assert cs == before + [c];
      BestStands(before, r);
      var best := Best(before, r);
      if best.Some? && Better(c, best.value) { StillUnbeaten(before, r, best.value, c); }
      NotBetterSelf(c);
    }
  }

  /** With distinct keys the result of best_for_role, absence included, does not depend on order. */
  lemma BestOrderFree(cs: seq<Candidate>, cs': seq<Candidate>, r: byte)
    requires multiset(cs) == multiset(cs') && KeysDistinct(cs)
    ensures Best(cs, r) == Best(cs', r)
  {
    hide Best, Better, Wins;
    BestStands(cs, r);
    BestStands(cs', r);
    DistinctPermuted(cs, cs');
    SameMembers(cs, cs');
    if Best(cs, r).Some? {
      UnbeatenWins(cs, r, Best(cs, r).value);
      UnbeatenWins(cs', r, Best(cs', r).value);
      WinnerUnique(cs, cs', r, Best(cs, r).value, Best(cs', r).value);
    }
  }

  ghost predicate Unbeaten(cs: seq<Candidate>, r: byte, b: Candidate) {
    forall c | c in cs && c.role == r :: !Better(c, b)
  }

  lemma NotBetterSelf(a: Candidate)
    ensures !Better(a, a)
  {}

  lemma StillUnbeaten(cs: seq<Candidate>, r: byte, b: Candidate, b': Candidate)
    requires Unbeaten(cs, r, b) && Better(b', b)
    ensures Unbeaten(cs, r, b')
  {
    forall c | c in cs && c.role == r
      ensures !Better(c, b')
    {
      if Better(c, b') { BetterTransitive(c, b', b); }
    }
  }

  lemma UnbeatenWins(cs: seq<Candidate>, r: byte, b: Candidate)
    requires KeysDistinct(cs) && Unbeaten(cs, r, b) && b in cs && b.role == r
    ensures Wins(cs, r, b)
  {
    hide Better;
    forall c | c in cs && c.role == r
      ensures c == b || Better(b, c)
    {
      if KeyOf()(c) == KeyOf()(b) { KeyFixes(cs, c, b); } else { BetterTotal(b, c); }
    }
  }

  /** There is one winner, and it depends on which candidates there are, not on their order. */
  lemma WinnerUnique(cs: seq<Candidate>, cs': seq<Candidate>, r: byte, b: Candidate, b': Candidate)
    requires multiset(cs) == multiset(cs') && Wins(cs, r, b) && Wins(cs', r, b')
    ensures b == b'
  {
    hide Better;
    assert b in multiset(cs') && b' in multiset(cs);
    if b != b' { BetterAsymmetric(b, b'); }
  }
}
