/** A batch against its headers submitted one at a time. */
module RelayBatch {
  import opened Basics
  import opened CompactBits
  import opened RelayModel
  import opened RelayTree
  import opened RelayRuns

  /** Submitting the headers of a batch as batches of one; None if one is rejected. */
  ghost function OneByOne(p: Params, st: State, headers: seq<Header>, blockTime: u32): Option<State>
    requires Sound(p, st) && NoneIsAnchor(p, headers)
    decreases |headers|
  {
    if headers == [] then Some(st) else
      match Apply(p, st, headers[..1], blockTime)
      case Err(_) => None
      case Ok(a) =>
        ApplySound(p, st, headers[..1], blockTime);
        OneByOne(p, a.state, headers[1..], blockTime)
  }

  /** A batch of headers, each naming the one before, with distinct hashes, none of them stored. */
  ghost predicate FreshBatch(p: Params, m: Headers, headers: seq<Header>) {
    headers != [] && !p.anchor.IsZero() && NoneIsAnchor(p, headers) &&
    (p.kind.Ltc? ==> |headers| <= MAX_LTC_BATCH) &&
    LinkedFrom(p, headers[0].prevHash, headers) &&
    (forall i | 0 <= i < |headers| :: p.blockHash(headers[i]) !in m) &&
    (forall i, j | 0 <= i < j < |headers| :: p.blockHash(headers[i]) != p.blockHash(headers[j]))
  }

  // ---------- staging from a committed state or from staged headers ----------

  lemma {:induction false} InsertAllConcat(m: Headers, a: seq<Staged>, b: seq<Staged>)
    ensures InsertAll(InsertAll(m, a), b) == InsertAll(m, a + b)
  {
    if b == [] {
      assert a + b == a;
    } else {
      InsertAllConcat(m, a, b[..|b| - 1]);
      assert (a + b)[..|a + b| - 1] == a + b[..|b| - 1];
    }
  }

  lemma {:induction false} InsertHeightsConcat(heights: map<Hash, nat>, a: seq<Staged>, b: seq<Staged>)
    ensures InsertHeights(InsertHeights(heights, a), b) == InsertHeights(heights, a + b)
  {
    if b == [] {
      assert a + b == a;
    } else {
      InsertHeightsConcat(heights, a, b[..|b| - 1]);
      assert (a + b)[..|a + b| - 1] == a + b[..|b| - 1];
    }
  }

  /** Which map counts as committed does not matter to a header that is in neither. */
  lemma CheckRebase(p: Params, c1: Headers, c2: Headers, m: Headers, cur: Cursor, h: Header, blockTime: u32)
    requires p.Usable() && Grounded(p, m)
    requires p.blockHash(h) !in c1 && p.blockHash(h) !in c2
    ensures CheckHeader(p, c1, m, cur, h, blockTime) == CheckHeader(p, c2, m, cur, h, blockTime)
  {
    hide BitsReject, Mtp;
  }

  /** Two staging states with the same headers in view. */
  ghost predicate SameView(p: Params, c1: Headers, s1: seq<Staged>, c2: Headers, s2: seq<Staged>, cur: Cursor) {
    InsertAll(c1, s1) == InsertAll(c2, s2) && p.Usable() && Grounded(p, InsertAll(c1, s1)) &&
    CursorOk(p, InsertAll(c1, s1), cur)
  }

  lemma {:induction false} StageRebase(p: Params, c1: Headers, s1: seq<Staged>, i1: nat,
                                       c2: Headers, s2: seq<Staged>, i2: nat,
                                       cur: Cursor, headers: seq<Header>, blockTime: u32)
    requires SameView(p, c1, s1, c2, s2, cur)
    requires forall i | 0 <= i < |headers| :: p.blockHash(headers[i]) !in c1 && p.blockHash(headers[i]) !in c2
    ensures Stage(p, c1, s1, cur, headers, i1, blockTime).Ok? <==> Stage(p, c2, s2, cur, headers, i2, blockTime).Ok?
    decreases |headers|
  {
    hide CheckHeader, GroundedAt;
    if headers != [] {
      var h := headers[0];
      var x := Staged(p.blockHash(h), EntryFor(cur, h));
      CheckRebase(p, c1, c2, InsertAll(c1, s1), cur, h, blockTime);
      if CheckHeader(p, c1, InsertAll(c1, s1), cur, h, blockTime).None? {
        StageUnfold(p, c1, s1, cur, headers, i1, blockTime);
        StageUnfold(p, c2, s2, cur, headers, i2, blockTime);
        InsertAllSnoc(c1, s1, x);
        InsertAllSnoc(c2, s2, x);
        StageRebase(p, c1, s1 + [x], i1 + 1, c2, s2 + [x], i2 + 1, Next(p, cur, h), headers[1..], blockTime);
      }
    }
  }

  // ---------- the two outcomes as conditions ----------

  /** What a fresh batch has to pass. */
  ghost predicate Passes(p: Params, m: Headers, headers: seq<Header>, blockTime: u32)
    requires Tree(p, m) && headers != []
  {
    Known(p, m, headers[0].prevHash) && (p.kind.Ltc? ==> AllMeetPow(p, headers)) &&
    Stage(p, m, [], Start(p, m, headers[0].prevHash).value, headers, 0, blockTime).Ok?
  }

  /** Start from the state a fresh batch extends. */
  ghost function Cur(p: Params, m: Headers, headers: seq<Header>): (cur: Cursor)
    requires headers != [] && Known(p, m, headers[0].prevHash)
    ensures CursorAt(p, m, cur) && CursorOk(p, m, cur) && cur.hash == headers[0].prevHash
  {
    Start(p, m, headers[0].prevHash).value
  }

  lemma FreshNotKnown(p: Params, m: Headers, cur: Cursor, headers: seq<Header>)
    requires headers != [] && p.blockHash(headers[0]) !in m
    ensures KnownPrefix(p, m, cur, headers) == (0, cur)
  {}

  lemma PowPrecheck(p: Params, headers: seq<Header>)
    ensures FirstPowFailure(p, headers) == |headers| <==> AllMeetPow(p, headers)
  {}

  lemma PassesEntries(p: Params, m: Headers, headers: seq<Header>, blockTime: u32)
    requires Tree(p, m) && FreshBatch(p, m, headers) && Passes(p, m, headers, blockTime)
    ensures var es := Entries(p, Cur(p, m, headers), headers);
            Stage(p, m, [], Cur(p, m, headers), headers, 0, blockTime) == Ok(es) &&
            Disjoint(m, es) && Tree(p, InsertAll(m, es))
  {
    hide Stage, RuleOk, LinkOk, GroundedAt, LinkedFrom, CheckHeader;
    var cur := Cur(p, m, headers);
    assert StageReady(p, m, [], cur);
    StageTree(p, m, [], cur, headers, 0, blockTime);
    assert [] + Entries(p, cur, headers) == Entries(p, cur, headers);
  }

  lemma BatchOutcome(p: Params, st: State, headers: seq<Header>, blockTime: u32)
    requires Sound(p, st) && FreshBatch(p, st.headers, headers)
    ensures Apply(p, st, headers, blockTime).Ok? <==> Passes(p, st.headers, headers, blockTime)
    ensures Passes(p, st.headers, headers, blockTime) ==>
              Apply(p, st, headers, blockTime) == Ok(Commit(p, st, Entries(p, Cur(p, st.headers, headers), headers)))
  {
    hide Stage, RuleOk, LinkOk, GroundedAt, Commit, TipBest, MapsAgree, TipStored, LinkedFrom, Stored, CheckHeader, Entries, Disjoint;
    PowPrecheck(p, headers);
    if Known(p, st.headers, headers[0].prevHash) {
      FreshNotKnown(p, st.headers, Cur(p, st.headers, headers), headers);
      assert headers[0..] == headers;
      if Passes(p, st.headers, headers, blockTime) { PassesEntries(p, st.headers, headers, blockTime); }
    }
  }

  // ---------- one step of the one-by-one run ----------

  lemma FreshHead(p: Params, m: Headers, headers: seq<Header>)
    requires FreshBatch(p, m, headers)
    ensures FreshBatch(p, m, headers[..1])
  {
    assert LinkedFrom(p, p.blockHash(headers[0]), []);
    assert headers[..1][1..] == [];
  }

  lemma FreshTail(p: Params, m: Headers, headers: seq<Header>, x: Staged)
    requires FreshBatch(p, m, headers) && |headers| > 1 && x.hash == p.blockHash(headers[0])
    ensures FreshBatch(p, m[x.hash := x.entry], headers[1..])
    ensures headers[1].prevHash == x.hash
  {
    assert headers[1..][0] == headers[1];
    assert LinkedFrom(p, p.blockHash(headers[0]), headers[1..]);
  }

  lemma SingleEntries(p: Params, cur: Cursor, h: Header)
    ensures Entries(p, cur, [h]) == [Staged(p.blockHash(h), EntryFor(cur, h))]
  {
    assert [h][1..] == [];
  }

  lemma StageNil(p: Params, committed: Headers, staged: seq<Staged>, cur: Cursor, index: nat, blockTime: u32)
    requires p.Usable() && Grounded(p, InsertAll(committed, staged)) && CursorOk(p, InsertAll(committed, staged), cur)
    ensures Stage(p, committed, staged, cur, [], index, blockTime) == Ok(staged)
  {}

  /** The first header of a fresh batch passes exactly when the batch of one does. */
  lemma PassesHead(p: Params, m: Headers, headers: seq<Header>, blockTime: u32)
    requires Tree(p, m) && FreshBatch(p, m, headers)
    ensures Passes(p, m, headers[..1], blockTime) <==>
              Known(p, m, headers[0].prevHash) && (p.kind.Ltc? ==> p.MeetsPow(headers[0])) &&
              CheckHeader(p, m, m, Cur(p, m, headers), headers[0], blockTime).None?
  {
    hide CheckHeader, RuleOk, LinkOk, GroundedAt, LinkedFrom;
    var h := headers[0];
    assert headers[..1] == [h] && [h][1..] == [];
    if Known(p, m, h.prevHash) {
      var cur := Cur(p, m, headers);
      if CheckHeader(p, m, m, cur, h, blockTime).None? {
        StageUnfold(p, m, [], cur, [h], 0, blockTime);
        StageNil(p, m, [] + [Staged(p.blockHash(h), EntryFor(cur, h))], Next(p, cur, h), 1, blockTime);
      }
    }
  }

  /** The batch passes exactly when its first header does and the rest passes after it. */
  lemma PassesTail(p: Params, m: Headers, headers: seq<Header>, blockTime: u32)
    requires Tree(p, m) && FreshBatch(p, m, headers) && |headers| > 1
    requires Passes(p, m, headers[..1], blockTime)
    requires Known(p, m, headers[0].prevHash)
    requires var x := Staged(p.blockHash(headers[0]), EntryFor(Cur(p, m, headers), headers[0]));
             Tree(p, m[x.hash := x.entry])
    ensures var x := Staged(p.blockHash(headers[0]), EntryFor(Cur(p, m, headers), headers[0]));
            Passes(p, m, headers, blockTime) <==> Passes(p, m[x.hash := x.entry], headers[1..], blockTime)
  {
    hide CheckHeader, RuleOk, LinkOk, GroundedAt;
    PassesHead(p, m, headers, blockTime);
    var h, rest, cur := headers[0], headers[1..], Cur(p, m, headers);
    var x := Staged(p.blockHash(h), EntryFor(cur, h));
    var m1 := m[x.hash := x.entry];
    FreshTail(p, m, headers, x);
    InsertAllSnoc(m, [], x);
    assert [] + [x] == [x] && InsertAll(m1, []) == m1 == InsertAll(m, [x]);
    StageUnfold(p, m, [], cur, headers, 0, blockTime);
    assert Start(p, m1, rest[0].prevHash) == Some(Next(p, cur, h));
    StageRebase(p, m, [x], 1, m1, [], 0, Next(p, cur, h), rest, blockTime);
    assert AllMeetPow(p, headers) <==> p.MeetsPow(h) && AllMeetPow(p, rest) by {
      assert forall i | 1 <= i < |headers| :: headers[i] == rest[i - 1];
    }
  }

  // ---------- the two runs compared ----------

  /** The state after the first header of a fresh batch. */
  ghost function After(p: Params, st: State, headers: seq<Header>): State
    requires headers != [] && Known(p, st.headers, headers[0].prevHash)
  {
    Commit(p, st, [Staged(p.blockHash(headers[0]), EntryFor(Cur(p, st.headers, headers), headers[0]))]).state
  }

  lemma FirstApplied(p: Params, st: State, headers: seq<Header>, blockTime: u32)
    requires Sound(p, st) && FreshBatch(p, st.headers, headers)
    ensures Apply(p, st, headers[..1], blockTime).Ok? <==> Passes(p, st.headers, headers[..1], blockTime)
    ensures Passes(p, st.headers, headers[..1], blockTime) ==>
              Known(p, st.headers, headers[0].prevHash) && Sound(p, After(p, st, headers)) &&
              Apply(p, st, headers[..1], blockTime).value.state == After(p, st, headers)
  {
    hide RuleOk, LinkOk, GroundedAt, Commit, TipBest, MapsAgree, TipStored, LinkedFrom, Apply, Stage;
    FreshHead(p, st.headers, headers);
    BatchOutcome(p, st, headers[..1], blockTime);
    if Passes(p, st.headers, headers[..1], blockTime) {
      ApplySound(p, st, headers[..1], blockTime);
      SingleEntries(p, Cur(p, st.headers, headers), headers[0]);
      assert headers[..1] == [headers[0]];
    }
  }

  lemma AfterMaps(p: Params, st: State, headers: seq<Header>)
    requires headers != [] && Known(p, st.headers, headers[0].prevHash)
    ensures var x := Staged(p.blockHash(headers[0]), EntryFor(Cur(p, st.headers, headers), headers[0]));
            After(p, st, headers).headers == InsertAll(st.headers, [x]) == st.headers[x.hash := x.entry] &&
            After(p, st, headers).heights == InsertHeights(st.heights, [x])
  {
    var x := Staged(p.blockHash(headers[0]), EntryFor(Cur(p, st.headers, headers), headers[0]));
    InsertAllSnoc(st.headers, [], x);
    assert [] + [x] == [x];
  }

  lemma OneByOneUnfold(p: Params, st: State, headers: seq<Header>, blockTime: u32)
    requires Sound(p, st) && FreshBatch(p, st.headers, headers)
    ensures OneByOne(p, st, headers, blockTime).Some? ==> Passes(p, st.headers, headers[..1], blockTime)
    ensures Passes(p, st.headers, headers[..1], blockTime) ==>
              Known(p, st.headers, headers[0].prevHash) && Sound(p, After(p, st, headers)) &&
              NoneIsAnchor(p, headers[1..]) &&
              OneByOne(p, st, headers, blockTime) == OneByOne(p, After(p, st, headers), headers[1..], blockTime)
  {
    hide RuleOk, LinkOk, GroundedAt, Commit, TipBest, MapsAgree, TipStored, LinkedFrom, Apply, Passes;
    FirstApplied(p, st, headers, blockTime);
  }

  /** The batch commits what the first header and then the rest commit. */
  ghost predicate SameMaps(p: Params, st: State, headers: seq<Header>, st': State)
    requires headers != [] && Known(p, st.headers, headers[0].prevHash)
  {
    var es := Entries(p, Cur(p, st.headers, headers), headers);
    st'.headers == InsertAll(st.headers, es) && st'.heights == InsertHeights(st.heights, es)
  }

  lemma SameMapsCons(p: Params, st: State, headers: seq<Header>, st': State)
    requires FreshBatch(p, st.headers, headers) && |headers| > 1 && Known(p, st.headers, headers[0].prevHash)
    requires Known(p, After(p, st, headers).headers, headers[1].prevHash)
    requires SameMaps(p, After(p, st, headers), headers[1..], st')
    ensures SameMaps(p, st, headers, st')
  {
    var cur := Cur(p, st.headers, headers);
    var x := Staged(p.blockHash(headers[0]), EntryFor(cur, headers[0]));
    AfterMaps(p, st, headers);
    FreshTail(p, st.headers, headers, x);
    var rest := Entries(p, Next(p, cur, headers[0]), headers[1..]);
    assert Cur(p, After(p, st, headers).headers, headers[1..]) == Next(p, cur, headers[0]);
    InsertAllConcat(st.headers, [x], rest);
    InsertHeightsConcat(st.heights, [x], rest);
  }

  /** A fresh batch succeeds exactly when its headers succeed one at a time, with the same two maps. */
  lemma {:induction false} BatchIsOneByOne(p: Params, st: State, headers: seq<Header>, blockTime: u32)
    requires Sound(p, st) && FreshBatch(p, st.headers, headers)
    ensures Apply(p, st, headers, blockTime).Ok? <==> OneByOne(p, st, headers, blockTime).Some?
    ensures Apply(p, st, headers, blockTime).Ok? ==>
              Apply(p, st, headers, blockTime).value.state.headers == OneByOne(p, st, headers, blockTime).value.headers &&
              Apply(p, st, headers, blockTime).value.state.heights == OneByOne(p, st, headers, blockTime).value.heights
  {
    hide RuleOk, LinkOk, GroundedAt, TipBest, MapsAgree, TipStored, LinkedFrom, Apply, Entries, InsertAll, InsertHeights;
    OneByOneMaps(p, st, headers, blockTime);
    BatchOutcome(p, st, headers, blockTime);
  }

  lemma {:induction false} OneByOneMaps(p: Params, st: State, headers: seq<Header>, blockTime: u32)
    requires Sound(p, st) && FreshBatch(p, st.headers, headers)
    ensures OneByOne(p, st, headers, blockTime).Some? <==> Passes(p, st.headers, headers, blockTime)
    ensures Passes(p, st.headers, headers, blockTime) ==>
              SameMaps(p, st, headers, OneByOne(p, st, headers, blockTime).value)
    decreases |headers|
  {
    hide RuleOk, LinkOk, GroundedAt, TipBest, MapsAgree, TipStored, LinkedFrom, Apply, Stage, Entries;
    OneByOneUnfold(p, st, headers, blockTime);
    if !Passes(p, st.headers, headers[..1], blockTime) {
      if Passes(p, st.headers, headers, blockTime) { PassesNeedsHead(p, st.headers, headers, blockTime); }
    } else {
      AfterMaps(p, st, headers);
      var x := Staged(p.blockHash(headers[0]), EntryFor(Cur(p, st.headers, headers), headers[0]));
      if |headers| == 1 {
        assert headers[..1] == headers == [headers[0]];
        SingleEntries(p, Cur(p, st.headers, headers), headers[0]);
      } else {
        FreshTail(p, st.headers, headers, x);
        PassesTail(p, st.headers, headers, blockTime);
        OneByOneMaps(p, After(p, st, headers), headers[1..], blockTime);
        if Passes(p, st.headers, headers, blockTime) {
          SameMapsCons(p, st, headers, OneByOne(p, st, headers, blockTime).value);
        }
      }
    }
  }

  lemma PassesNeedsHead(p: Params, m: Headers, headers: seq<Header>, blockTime: u32)
    requires Tree(p, m) && FreshBatch(p, m, headers) && Passes(p, m, headers, blockTime)
    ensures Passes(p, m, headers[..1], blockTime)
  {
    hide CheckHeader, RuleOk, LinkOk, GroundedAt, LinkedFrom;
    PassesHead(p, m, headers, blockTime);
    StageChecks(p, m, [], Cur(p, m, headers), headers, 0, blockTime);
  }

  // ---------- the tip ----------

  /** Total work of the last header of the batch. */
  ghost function LastTotal(p: Params, st: State, headers: seq<Header>): nat
    requires headers != [] && Known(p, st.headers, headers[0].prevHash)
  {
    Entries(p, Cur(p, st.headers, headers), headers)[|headers| - 1].entry.totalWork
  }

  ghost predicate TipIsLast(p: Params, headers: seq<Header>, st': State)
    requires headers != []
  {
    st'.tip == Some(p.blockHash(headers[|headers| - 1]))
  }

  /** What one header does to the tip. */
  lemma AfterTip(p: Params, st: State, headers: seq<Header>)
    requires Sound(p, st) && FreshBatch(p, st.headers, headers) && Known(p, st.headers, headers[0].prevHash)
    ensures var work := Cur(p, st.headers, headers).work + Work(headers[0].bits);
            var before, st' := TipWork(p, st.headers, st.tip), After(p, st, headers);
            if work > before
            then st'.tip == Some(p.blockHash(headers[0])) && TipWork(p, st'.headers, st'.tip) == work
            else st'.tip == st.tip && TipWork(p, st'.headers, st'.tip) == before
  {
    hide Tree, Work, LinkedFrom, TipBest, MapsAgree;
    AfterMaps(p, st, headers);
  }

  /** One at a time, the tip moves to the last header exactly when that header carries work of
      its own and beats the old tip; when it does not beat the old tip, the tip stays. */
  lemma {:induction false} OneByOneTip(p: Params, st: State, headers: seq<Header>, blockTime: u32)
    requires Sound(p, st) && FreshBatch(p, st.headers, headers) && OneByOne(p, st, headers, blockTime).Some?
    requires Known(p, st.headers, headers[0].prevHash)
    ensures var beats := LastTotal(p, st, headers) > TipWork(p, st.headers, st.tip);
            var st' := OneByOne(p, st, headers, blockTime).value;
            (TipIsLast(p, headers, st') <==> beats && Work(headers[|headers| - 1].bits) > 0) &&
            (!beats ==> st'.tip == st.tip)
    decreases |headers|
  {
    hide RuleOk, LinkOk, GroundedAt, MapsAgree, LinkedFrom, Apply, Stage, Work, Passes, Entries, InsertAll;
    OneByOneUnfold(p, st, headers, blockTime);
    AfterTip(p, st, headers);
    AfterMaps(p, st, headers);
    var cur := Cur(p, st.headers, headers);
    var st1 := After(p, st, headers);
    var last := p.blockHash(headers[|headers| - 1]);
    assert st.tip != Some(last);
    if |headers| == 1 {
      assert headers == [headers[0]];
      SingleEntries(p, cur, headers[0]);
      assert OneByOne(p, st1, headers[1..], blockTime) == Some(st1);
    } else {
      FreshTail(p, st.headers, headers, Staged(p.blockHash(headers[0]), EntryFor(cur, headers[0])));
      OneByOneTip(p, st1, headers[1..], blockTime);
      LastTotalCons(p, st, headers);
      assert headers[1..][|headers| - 2] == headers[|headers| - 1];
    }
  }

  lemma LastTotalCons(p: Params, st: State, headers: seq<Header>)
    requires FreshBatch(p, st.headers, headers) && |headers| > 1 && Known(p, st.headers, headers[0].prevHash)
    ensures Known(p, After(p, st, headers).headers, headers[1].prevHash)
    ensures LastTotal(p, After(p, st, headers), headers[1..]) == LastTotal(p, st, headers)
    ensures LastTotal(p, st, headers) >= Cur(p, st.headers, headers).work + Work(headers[0].bits) + Work(headers[|headers| - 1].bits)
  {
    hide Work, LinkedFrom, After, InsertAll, InsertHeights;
    var cur := Cur(p, st.headers, headers);
    FreshTail(p, st.headers, headers, Staged(p.blockHash(headers[0]), EntryFor(cur, headers[0])));
    AfterMaps(p, st, headers);
    EntriesOrdered(p, cur, headers, 0);
    assert Entries(p, cur, headers)[1..] == Entries(p, Next(p, cur, headers[0]), headers[1..]);
  }

  lemma BatchTip(p: Params, st: State, headers: seq<Header>, blockTime: u32)
    requires Sound(p, st) && FreshBatch(p, st.headers, headers) && Apply(p, st, headers, blockTime).Ok?
    requires Known(p, st.headers, headers[0].prevHash)
    ensures var beats := LastTotal(p, st, headers) > TipWork(p, st.headers, st.tip);
            var st' := Apply(p, st, headers, blockTime).value.state;
            (TipIsLast(p, headers, st') <==> beats) && (!beats ==> st'.tip == st.tip)
  {
    hide RuleOk, LinkOk, GroundedAt, MapsAgree, LinkedFrom, Apply, Stage, Work;
    BatchOutcome(p, st, headers, blockTime);
    PassesEntries(p, st.headers, headers, blockTime);
    var es := Entries(p, Cur(p, st.headers, headers), headers);
    EntriesOrdered(p, Cur(p, st.headers, headers), headers, |headers| - 1);
    InsertAllAt(st.headers, es);
    assert st.tip != Some(p.blockHash(headers[|headers| - 1]));
  }

  /** The two ways to submit a fresh batch end in the same state exactly when its last header
      carries work or does not beat the old tip. Otherwise only the tip differs: the batch puts it
      on a header without work of its own. */
  lemma BatchSameState(p: Params, st: State, headers: seq<Header>, blockTime: u32)
    requires Sound(p, st) && FreshBatch(p, st.headers, headers) && Apply(p, st, headers, blockTime).Ok?
    ensures OneByOne(p, st, headers, blockTime).Some? && Known(p, st.headers, headers[0].prevHash)
    ensures Apply(p, st, headers, blockTime).value.state == OneByOne(p, st, headers, blockTime).value <==>
              Work(headers[|headers| - 1].bits) > 0 ||
              LastTotal(p, st, headers) <= TipWork(p, st.headers, st.tip)
  {
    hide RuleOk, LinkOk, GroundedAt, TipBest, MapsAgree, LinkedFrom, Apply, Stage, Work, LastTotal;
    BatchOutcome(p, st, headers, blockTime);
    BatchIsOneByOne(p, st, headers, blockTime);
    OneByOneTip(p, st, headers, blockTime);
    BatchTip(p, st, headers, blockTime);
    OneByOneSound(p, st, headers, blockTime);
    ApplySound(p, st, headers, blockTime);
  }

  lemma {:induction false} OneByOneSound(p: Params, st: State, headers: seq<Header>, blockTime: u32)
    requires Sound(p, st) && NoneIsAnchor(p, headers) && OneByOne(p, st, headers, blockTime).Some?
    ensures Sound(p, OneByOne(p, st, headers, blockTime).value)
    decreases |headers|
  {
    hide RuleOk, LinkOk, GroundedAt, MapsAgree, TipBest, TipStored, Apply;
    if headers != [] {
      ApplySound(p, st, headers[..1], blockTime);
      OneByOneSound(p, Apply(p, st, headers[..1], blockTime).value.state, headers[1..], blockTime);
    }
  }
}
