/** A fork below the tip that the relay takes alone and refuses behind the stored header it
    branches from. */
module RelayFork {
  import opened Basics
  import opened CompactBits
  import opened RelayModel
  import opened RelayTree
  import opened RelayRuns
  import opened RelayPrefix
  import opened RelayWitness

  const ROOT := Header(1, 1, 0, 1, EASY, 1)
  const MAIN := Header(1, 2, 0, 2, EASY, 2)
  const FORK := Header(1, 2, 0, 2, EASY, 3)

  function Numbered(): Header -> Hash {
    (h: Header) => if h.nonce < 100 then h.nonce + 1 else 0xffff_ffff
  }

  function Plain(): Params {
    Params(Btc, Anchor(1, 10, EASY, 0), BITCOIN, Numbered(), Numbered())
  }

  /** A header with the parent's bits, later than the median, is accepted off a retarget height. */
  lemma Ordinary(m: Headers, cur: Cursor, h: Header)
    requires Grounded(Plain(), m) && h.prevHash == cur.hash && Known(Plain(), m, cur.hash) && h.nonce < 100
    requires Numbered()(h) !in m && cur.height < 2000
    requires BitsAt(Plain(), m, cur.hash) == EASY == h.bits && Mtp(Plain(), m, cur.hash) < h.time < 1000
    ensures Plain().Usable() && CheckHeader(Plain(), m, m, cur, h, 0) == None
  {
    Targets();
    hide Decode, Mtp, GroundedAt;
    assert ExpectedBits(Plain(), m, cur.height + 1, cur.hash) == Ok(EASY);
  }

  lemma AnchorMtp(m: Headers)
    ensures Mtp(Plain(), m, 1) == 0
  {
    assert TimesBack(Plain(), m, 1, MTP_WINDOW) == [0];
    assert Sort([0]) == [0];
  }

  lemma RootMtp(m: Headers)
    requires 2 in m && m[2].header == ROOT
    ensures Mtp(Plain(), m, 2) == 1
  {
    assert TimesBack(Plain(), m, 1, MTP_WINDOW - 1) == [0];
    assert TimesBack(Plain(), m, 2, MTP_WINDOW) == [1, 0];
    assert Sort([1, 0]) == [0, 1] by { assert Sort([0]) == [0]; assert [1, 0][1..] == [0]; }
  }

  /** A single ordinary header is taken. */
  lemma Taken(st: State, cur: Cursor, h: Header)
    requires Sound(Plain(), st) && Start(Plain(), st.headers, h.prevHash) == Some(cur)
    requires Numbered()(h) !in st.headers
    requires CheckHeader(Plain(), st.headers, st.headers, cur, h, 0) == None
    ensures Apply(Plain(), st, [h], 0) == Ok(Commit(Plain(), st, [Staged(Numbered()(h), EntryFor(cur, h))]))
  {
    hide RuleOk, LinkOk, GroundedAt, MapsAgree, TipBest, TipStored, CheckHeader, Commit, Stage;
    var p, m, x := Plain(), st.headers, Staged(Numbered()(h), EntryFor(cur, h));
    NotKnown(p, m, cur, [h]);
    StageUnfold(p, m, [], cur, [h], 0, 0);
    assert [] + [x] == [x] && [h][1..] == [] && [h][0..] == [h];
    Done(p, m, [x], Next(p, cur, h));
  }

  lemma Done(p: Params, m: Headers, staged: seq<Staged>, cur: Cursor)
    requires p.Usable() && Grounded(p, InsertAll(m, staged)) && CursorOk(p, InsertAll(m, staged), cur)
    ensures Stage(p, m, staged, cur, [], 1, 0) == Ok(staged)
  {}

  // ---------- the two stored headers ----------

  const WORK := Work(EASY)

  ghost function One(): State {
    State(map[2 := Entry(ROOT, 11, 2 * WORK)], map[2 := 11], Some(2), 11)
  }

  ghost function Two(): State {
    State(map[2 := Entry(ROOT, 11, 2 * WORK), 3 := Entry(MAIN, 12, 3 * WORK)], map[2 := 11, 3 := 12], Some(3), 12)
  }

  lemma CommitOne(p: Params, st: State, x: Staged)
    requires x.hash !in st.headers
    ensures var a := Commit(p, st, [x]);
            a.state.headers == st.headers[x.hash := x.entry] && a.state.heights == st.heights[x.hash := x.entry.height] &&
            (x.entry.totalWork > TipWork(p, st.headers[x.hash := x.entry], st.tip) ==>
               a.state.tip == Some(x.hash) && a.state.tipHeight == x.entry.height)
  {
    assert [] + [x] == [x];
    InsertAllSnoc(st.headers, [], x);
    InsertHeightsSnoc(st.heights, [], x);
  }

  /** A header with more work than the tip becomes the tip. */
  lemma Extends(st: State, cur: Cursor, h: Header, st': State)
    requires Sound(Plain(), st) && Start(Plain(), st.headers, h.prevHash) == Some(cur)
    requires Numbered()(h) !in st.headers && Numbered()(h) != 1
    requires CheckHeader(Plain(), st.headers, st.headers, cur, h, 0) == None
    requires var x := EntryFor(cur, h);
             st' == State(st.headers[Numbered()(h) := x], st.heights[Numbered()(h) := x.height], Some(Numbered()(h)), x.height) &&
             x.totalWork > TipWork(Plain(), st'.headers, st.tip)
    ensures Apply(Plain(), st, [h], 0).Ok? && Apply(Plain(), st, [h], 0).value.state == st' && Sound(Plain(), st')
  {
    hide Apply, RuleOk, LinkOk, GroundedAt, MapsAgree, TipBest, TipStored, CheckHeader, Commit, Mtp, Work;
    Taken(st, cur, h);
    CommitOne(Plain(), st, Staged(Numbered()(h), EntryFor(cur, h)));
    ApplySound(Plain(), st, [h], 0);
  }

  lemma FirstStored()
    ensures Plain().Usable() && Sound(Plain(), EMPTY)
    ensures Apply(Plain(), EMPTY, [ROOT], 0).Ok? && Apply(Plain(), EMPTY, [ROOT], 0).value.state == One()
    ensures Sound(Plain(), One())
  {
    EmptySound(Plain());
    AnchorMtp(map[]);
    Targets();
    hide Apply, RuleOk, LinkOk, GroundedAt, MapsAgree, TipBest, TipStored, CheckHeader, Mtp, Work;
    var cur := Cursor(1, 10, WORK);
    Ordinary(map[], cur, ROOT);
    Extends(EMPTY, cur, ROOT, One());
  }

  lemma OneMtp()
    ensures Mtp(Plain(), One().headers, 2) == 1 && Mtp(Plain(), Two().headers, 2) == 1
  {
    RootMtp(One().headers);
    RootMtp(Two().headers);
  }

  lemma TwoIsOneMore(cur: Cursor)
    requires cur == Cursor(2, 11, 2 * WORK) && WORK > 0
    ensures var x := EntryFor(cur, MAIN);
            Two() == State(One().headers[3 := x], One().heights[3 := x.height], Some(3), x.height) &&
            x.totalWork > TipWork(Plain(), Two().headers, One().tip)
    ensures Start(Plain(), One().headers, 2) == Some(cur) && 3 !in One().headers
  {
    hide Work;
    assert One().headers[3 := EntryFor(cur, MAIN)] == Two().headers;
    assert One().heights[3 := 12] == Two().heights;
  }

  lemma SecondStored()
    ensures Sound(Plain(), One()) && Sound(Plain(), Two())
    ensures Apply(Plain(), One(), [MAIN], 0).Ok? && Apply(Plain(), One(), [MAIN], 0).value.state == Two()
  {
    hide Apply, RuleOk, LinkOk, GroundedAt, MapsAgree, TipBest, TipStored, CheckHeader, Mtp, Work;
    FirstStored();
    OneMtp();
    Targets();
    var cur := Cursor(2, 11, 2 * WORK);
    Ordinary(One().headers, cur, MAIN);
    TwoIsOneMore(cur);
    hide One, Two;
    Extends(One(), cur, MAIN, Two());
  }

  lemma RootRun()
    ensures StoredRun(Plain(), Two().headers, [ROOT])
    ensures Behind(Plain(), Two().headers, [ROOT]) == Cursor(2, 11, 2 * WORK)
    ensures GoesOn(Plain(), Two().headers, [ROOT], [FORK])
  {
    hide Work;
    var p, m := Plain(), Two().headers;
    assert [ROOT][1..] == [];
    assert KnownPrefix(p, m, Cursor(1, 10, WORK), [ROOT]) == (1, Cursor(2, 11, 2 * WORK));
  }

  /** In a reachable state the fork is taken alone and refused behind the header it branches from. */
  lemma ForkRefused()
    ensures Sound(Plain(), Two()) && StoredRun(Plain(), Two().headers, [ROOT])
    ensures Apply(Plain(), Two(), [FORK], 0).Ok?
    ensures Apply(Plain(), Two(), [ROOT, FORK], 0) == Err(NonTipFork)
  {
    hide Apply, RuleOk, LinkOk, GroundedAt, MapsAgree, TipBest, TipStored, CheckHeader, Mtp, Work, StoredRun, GoesOn, Behind,
      Commit;
    SecondStored();
    OneMtp();
    var cur := Cursor(2, 11, 2 * WORK);
    Ordinary(Two().headers, cur, FORK);
    Taken(Two(), cur, FORK);
    RootRun();
    assert [ROOT] + [FORK] == [ROOT, FORK];
    PrefixedBatch(Plain(), Two(), [ROOT], [FORK], 0);
  }
}
