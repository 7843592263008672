/** A batch after which the relay's tip depends on whether its headers came together or one by
    one: the second header's target is 2^256, so it adds no work. It stands at a retarget height
    whose window opens before the anchor, where any bits pass. */
module RelayWitness {
  import opened Basics
  import opened CompactBits
  import opened RelayModel
  import opened RelayTree
  import opened RelayRuns
  import opened RelayBatch

  const EASY: u32 := 0x0300_ffff
  const WORKLESS: u32 := 0x2300_0001
  const FIRST := Header(1, 1, 0, 1, EASY, 1)
  const SECOND := Header(1, 2, 0, 2, WORKLESS, 2)
  const BATCH: seq<Header> := [FIRST, SECOND]

  function Hashing(): Header -> Hash {
    (h: Header) => if h.nonce == 1 then 2 else 3
  }

  function Setting(): Params {
    Params(Btc, Anchor(1, 2014, EASY, 0), BITCOIN, Hashing(), Hashing())
  }

  lemma Targets()
    ensures Decode(EASY) == 0xffff && Decode(WORKLESS) == TWO_256
    ensures Work(EASY) > 0 && Work(WORKLESS) == 0
  {
    assert EASY % 0x100_0000 == 0xffff && EASY / 0x100_0000 == 3;
    assert WORKLESS % 0x100_0000 == 1 && WORKLESS / 0x100_0000 == 35;
    Pow256Hash();
    assert Pow256(0) == 1;
    hide Pow256, Work;
    WorkPositive(EASY);
    WorkPositive(WORKLESS);
  }

  lemma FirstPasses(cur: Cursor)
    requires cur.hash == 1 && cur.height == 2014
    ensures Grounded(Setting(), map[]) && Setting().Usable()
    ensures CheckHeader(Setting(), map[], map[], cur, FIRST, 0) == None
  {
    Targets();
    hide Decode;
    var p, m: Headers := Setting(), map[];
    assert ExpectedBits(p, m, 2015, 1) == Ok(EASY);
    assert TimesBack(p, m, 1, MTP_WINDOW) == [0];
    assert Sort([0]) == [0];
  }

  lemma SecondPasses(cur: Cursor, e: Entry)
    requires cur.hash == 2 && cur.height == 2015 && e.header == FIRST && e.height == 2015
    ensures Grounded(Setting(), map[2 := e]) && Setting().Usable()
    ensures CheckHeader(Setting(), map[], map[2 := e], cur, SECOND, 0) == None
  {
    Targets();
    hide Decode;
    var p, m: Headers := Setting(), map[2 := e];
    assert GroundedAt(p, m, 2);
    assert ExpectedBits(p, m, 2016, 2) == Err(WindowBeforeAnchor);
    assert TimesBack(p, m, 1, MTP_WINDOW - 1) == [0];
    assert TimesBack(p, m, 2, MTP_WINDOW) == [1, 0];
    assert Sort([1, 0]) == [0, 1] by { assert Sort([0]) == [0]; assert [1, 0][1..] == [0]; }
  }

  const START := Cursor(1, 2014, Work(EASY))

  lemma Stages()
    ensures Setting().Usable() && Grounded(Setting(), InsertAll(map[], [])) &&
            CursorOk(Setting(), InsertAll(map[], []), START)
    ensures Stage(Setting(), map[], [], START, BATCH, 0, 0).Ok?
  {
    hide CheckHeader, Work, Stage;
    var p, none: Headers := Setting(), map[];
    FirstPasses(START);
    StageUnfold(p, none, [], START, BATCH, 0, 0);
    var cur := Next(p, START, FIRST);
    var x := Staged(2, EntryFor(START, FIRST));
    assert InsertAll(none, [x]) == map[2 := x.entry] by { InsertAllSnoc(none, [], x); assert [] + [x] == [x]; }
    SecondPasses(cur, x.entry);
    assert BATCH[1..] == [SECOND] && [] + [x] == [x];
    StageUnfold(p, none, [x], cur, [SECOND], 1, 0);
    StageEnds(p, none, [x] + [Staged(3, EntryFor(cur, SECOND))], Next(p, cur, SECOND), [SECOND][1..]);
  }

  lemma StageEnds(p: Params, m: Headers, staged: seq<Staged>, cur: Cursor, rest: seq<Header>)
    requires p.Usable() && Grounded(p, InsertAll(m, staged)) && CursorOk(p, InsertAll(m, staged), cur) && rest == []
    ensures Stage(p, m, staged, cur, rest, 2, 0).Ok?
  {}

  lemma Fresh()
    ensures FreshBatch(Setting(), map[], BATCH)
  {
    var p := Setting();
    assert p.blockHash(BATCH[0]) == 2 && p.blockHash(BATCH[1]) == 3;
    assert BATCH[1..] == [SECOND] && [SECOND][1..] == [];
    assert LinkedFrom(p, 3, []) && LinkedFrom(p, 2, [SECOND]) && LinkedFrom(p, 1, BATCH);
  }

  lemma Accepted()
    ensures Sound(Setting(), EMPTY) && Apply(Setting(), EMPTY, BATCH, 0).Ok?
  {
    var p := Setting();
    EmptySound(p);
    Stages();
    hide Stage, Work;
    assert Start(p, map[], 1) == Some(START);
    assert BATCH[0..] == BATCH;
  }

  lemma LastBeatsAnchor()
    ensures LastTotal(Setting(), EMPTY, BATCH) > TipWork(Setting(), map[], None)
  {
    Targets();
    hide Work;
    var p := Setting();
    assert Cur(p, map[], BATCH) == START;
    assert BATCH[1..] == [SECOND];
    assert Entries(p, START, BATCH)[1] == Entries(p, Next(p, START, FIRST), [SECOND])[0];
  }

  /** From the empty state the batch is accepted both ways and the two states differ. */
  lemma TipCanDiffer()
    ensures Sound(Setting(), EMPTY) && FreshBatch(Setting(), map[], BATCH)
    ensures Apply(Setting(), EMPTY, BATCH, 0).Ok? && OneByOne(Setting(), EMPTY, BATCH, 0).Some?
    ensures Apply(Setting(), EMPTY, BATCH, 0).value.state != OneByOne(Setting(), EMPTY, BATCH, 0).value
  {
    Targets();
    hide Work, Apply, LastTotal, OneByOne, Sound, TipWork;
    Fresh();
    Accepted();
    LastBeatsAnchor();
    BatchSameState(Setting(), EMPTY, BATCH, 0);
  }
}
