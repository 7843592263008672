/** Whole runs of the relay: what every reachable state satisfies, what a disconnect restores,
    and what replaying an old batch does. */
module RelayRuns {
  import opened Basics
  import opened CompactBits
  import opened RelayModel
  import opened RelayTree

  // ---------- the state invariant ----------

  ghost predicate MapsAgree(st: State) {
    st.heights.Keys == st.headers.Keys &&
    forall h | h in st.headers :: st.heights[h] == st.headers[h].height
  }

  ghost predicate TipStored(st: State) {
    match st.tip
    case None => st.tipHeight == 0
    case Some(h) => h in st.headers && st.tipHeight == st.headers[h].height
  }

  /** No stored header, nor the anchor, has more work than the tip. */
  ghost predicate TipBest(p: Params, st: State) {
    Work(p.anchor.bits) <= TipWork(p, st.headers, st.tip) &&
    forall h | h in st.headers :: st.headers[h].totalWork <= TipWork(p, st.headers, st.tip)
  }

  ghost predicate Sound(p: Params, st: State) {
    Tree(p, st.headers) && MapsAgree(st) && TipStored(st) && TipBest(p, st)
  }

  // ---------- one apply ----------

  lemma {:induction false} HeightsFollow(m: Headers, heights: map<Hash, nat>, staged: seq<Staged>)
    requires heights.Keys == m.Keys && forall h | h in m :: heights[h] == m[h].height
    ensures InsertHeights(heights, staged).Keys == InsertAll(m, staged).Keys
    ensures forall h | h in InsertAll(m, staged) :: InsertHeights(heights, staged)[h] == InsertAll(m, staged)[h].height
  {
    if staged != [] { HeightsFollow(m, heights, staged[..|staged| - 1]); }
  }

  lemma CommitSound(p: Params, st: State, cur: Cursor, headers: seq<Header>)
    requires Sound(p, st) && headers != []
    requires Disjoint(st.headers, Entries(p, cur, headers))
    requires Tree(p, InsertAll(st.headers, Entries(p, cur, headers)))
    ensures Sound(p, Commit(p, st, Entries(p, cur, headers)).state)
  {
    hide Tree, Work;
    var es := Entries(p, cur, headers);
    var st' := Commit(p, st, es).state;
    HeightsFollow(st.headers, st.heights, es);
    InsertAllAt(st.headers, es);
    forall h | h in st'.headers
      ensures st'.headers[h].totalWork <= TipWork(p, st'.headers, st'.tip)
    {
      if h !in st.headers {
        var i :| 0 <= i < |es| && es[i].hash == h;
        EntriesOrdered(p, cur, headers, i);
      }
    }
  }

  lemma {:induction false} PrefixCursor(p: Params, m: Headers, cur: Cursor, headers: seq<Header>)
    requires Linked(p, m) && CursorAt(p, m, cur)
    ensures CursorAt(p, m, KnownPrefix(p, m, cur, headers).1)
    decreases |headers|
  {
    if headers != [] && Stored(p, m, cur, headers[0]) {
      var hash := p.blockHash(headers[0]);
      PrefixCursor(p, m, Cursor(hash, cur.height + 1, m[hash].totalWork), headers[1..]);
    }
  }

  /** What a successful apply did. */
  datatype Effect = Nothing | Added(cur: Cursor, from: nat)

  ghost function EffectOf(p: Params, st: State, headers: seq<Header>): Effect
    requires headers != [] && Known(p, st.headers, headers[0].prevHash)
  {
    var (k, cur) := KnownPrefix(p, st.headers, Start(p, st.headers, headers[0].prevHash).value, headers);
    if k == |headers| then Nothing else Added(cur, k)
  }

  ghost predicate HasEffect(p: Params, st: State, headers: seq<Header>, a: Applied, effect: Effect) {
    if effect.Nothing? then a == NoChange(st) else
      effect.from < |headers| && CursorAt(p, st.headers, effect.cur) &&
      a == Commit(p, st, Entries(p, effect.cur, headers[effect.from..])) &&
      Disjoint(st.headers, Entries(p, effect.cur, headers[effect.from..])) &&
      Tree(p, InsertAll(st.headers, Entries(p, effect.cur, headers[effect.from..])))
  }

  /** A successful apply either changes nothing or commits the entries of an unknown suffix. */
  lemma ApplyEffect(p: Params, st: State, headers: seq<Header>, blockTime: u32)
    requires Sound(p, st) && NoneIsAnchor(p, headers)
    requires Apply(p, st, headers, blockTime).Ok?
    ensures Precheck(p, headers).None? && headers != [] && Known(p, st.headers, headers[0].prevHash)
    ensures HasEffect(p, st, headers, Apply(p, st, headers, blockTime).value, EffectOf(p, st, headers))
  {
    hide CheckHeader, RuleOk, LinkOk, GroundedAt, Commit, TipBest, MapsAgree;
    var m := st.headers;
    var start := Start(p, m, headers[0].prevHash).value;
    var (k, cur) := KnownPrefix(p, m, start, headers);
    PrefixCursor(p, m, start, headers);
    if k < |headers| {
      var rest := headers[k..];
      assert StageReady(p, m, [], cur);
      assert p.kind.Ltc? ==> AllMeetPow(p, rest);
      StageTree(p, m, [], cur, rest, k, blockTime);
      assert [] + Entries(p, cur, rest) == Entries(p, cur, rest);
    }
  }

  lemma ApplySound(p: Params, st: State, headers: seq<Header>, blockTime: u32)
    requires Sound(p, st) && NoneIsAnchor(p, headers)
    requires Apply(p, st, headers, blockTime).Ok?
    ensures Sound(p, Apply(p, st, headers, blockTime).value.state)
    ensures Submap(st.headers, Apply(p, st, headers, blockTime).value.state.headers)
  {
    hide Apply, Sound, Tree, Commit, Stage;
    ApplyEffect(p, st, headers, blockTime);
    match EffectOf(p, st, headers)
    case Nothing =>
    case Added(cur, k) =>
      CommitSound(p, st, cur, headers[k..]);
      CommitHeaders(p, st, Entries(p, cur, headers[k..]));
      InsertAllAt(st.headers, Entries(p, cur, headers[k..]));
  }

  lemma CommitHeaders(p: Params, st: State, staged: seq<Staged>)
    requires staged != []
    ensures Commit(p, st, staged).state.headers == InsertAll(st.headers, staged)
  {}

  // ---------- undo ----------

  lemma RemoveLast<V>(m: map<Hash, V>, h: Hash, v: V, gone: set<Hash>)
    requires h !in m - gone
    ensures m[h := v] - (gone + {h}) == m - gone
  {}

  lemma {:induction false} RemoveInserted(m: Headers, heights: map<Hash, nat>, staged: seq<Staged>)
    requires Disjoint(m, staged) && heights.Keys == m.Keys
    ensures var gone := set h | h in Hashes(staged);
            InsertAll(m, staged) - gone == m && InsertHeights(heights, staged) - gone == heights
  {
    if staged != [] {
      var init, last := staged[..|staged| - 1], staged[|staged| - 1];
      RemoveInserted(m, heights, init);
      assert Hashes(staged) == Hashes(init) + [last.hash];
      var gone, gone' := set h | h in Hashes(staged), set h | h in Hashes(init);
      assert gone == gone' + {last.hash};
      RemoveLast(InsertAll(m, init), last.hash, last.entry, gone');
      RemoveLast(InsertHeights(heights, init), last.hash, last.entry.height, gone');
    }
  }

  /** Undoing the update of a successful apply restores both maps, the tip and its height. */
  lemma UndoRestores(p: Params, st: State, headers: seq<Header>, blockTime: u32)
    requires Sound(p, st) && NoneIsAnchor(p, headers)
    requires Apply(p, st, headers, blockTime).Ok?
    ensures var a := Apply(p, st, headers, blockTime).value;
            Undo(a.state, a.update) == st
  {
    hide Apply, Tree, Stage, TipBest, TipStored;
    ApplyEffect(p, st, headers, blockTime);
    match EffectOf(p, st, headers)
    case Nothing =>
    case Added(cur, k) => RemoveInserted(st.headers, st.heights, Entries(p, cur, headers[k..]));
  }

  // ---------- runs of connects and disconnects ----------

  datatype Event = Connect(batch: seq<Header>, blockTime: u32) | Disconnect

  /** The relay and the undo records of the blocks connected so far, latest last. */
  datatype Node = Node(st: State, log: seq<Update>)

  ghost predicate Restorable(p: Params, node: Node)
    decreases |node.log|
  {
    Sound(p, node.st) &&
    if node.log == [] then node.st == EMPTY else Restorable(p, Rewound(node))
  }

  function Rewound(node: Node): Node
    requires node.log != []
  {
    Node(Undo(node.st, node.log[|node.log| - 1]), node.log[..|node.log| - 1])
  }

  ghost predicate Clean(p: Params, e: Event) {
    e.Connect? ==> NoneIsAnchor(p, e.batch)
  }

  ghost predicate AllClean(p: Params, events: seq<Event>) {
    forall i | 0 <= i < |events| :: Clean(p, events[i])
  }

  /** A block whose batch is rejected is not connected; a disconnect undoes the latest block. */
  ghost function Step(p: Params, node: Node, e: Event): Node
    requires p.Usable() && Grounded(p, node.st.headers)
  {
    match e
    case Connect(batch, blockTime) =>
      (match Apply(p, node.st, batch, blockTime)
       case Err(_) => node
       case Ok(a) => Node(a.state, node.log + [a.update]))
    case Disconnect => if node.log == [] then node else Rewound(node)
  }

  lemma ConnectRestorable(p: Params, node: Node, batch: seq<Header>, blockTime: u32)
    requires Restorable(p, node) && NoneIsAnchor(p, batch)
    requires Apply(p, node.st, batch, blockTime).Ok?
    ensures var a := Apply(p, node.st, batch, blockTime).value;
            var node' := Node(a.state, node.log + [a.update]);
            Restorable(p, node') && Rewound(node') == node
  {
    hide Apply, RuleOk, LinkOk, GroundedAt, MapsAgree, TipBest, TipStored, Undo;
    ApplySound(p, node.st, batch, blockTime);
    UndoRestores(p, node.st, batch, blockTime);
    var a := Apply(p, node.st, batch, blockTime).value;
    assert (node.log + [a.update])[..|node.log|] == node.log;
  }

  lemma StepRestorable(p: Params, node: Node, e: Event)
    requires Restorable(p, node) && Clean(p, e)
    ensures Restorable(p, Step(p, node, e))
  {
    hide Apply, RuleOk, LinkOk, GroundedAt, MapsAgree, TipBest, TipStored;
    if e.Connect? && Apply(p, node.st, e.batch, e.blockTime).Ok? {
      ConnectRestorable(p, node, e.batch, e.blockTime);
    }
  }

  lemma EmptySound(p: Params)
    requires p.Usable()
    ensures Sound(p, EMPTY)
  {}

  ghost function Run(p: Params, events: seq<Event>): (node: Node)
    requires p.Usable() && AllClean(p, events)
    ensures Restorable(p, node)
  {
    if events == [] then
      EmptySound(p);
      Node(EMPTY, [])
    else
      var node := Run(p, events[..|events| - 1]);
      StepRestorable(p, node, events[|events| - 1]);
      Step(p, node, events[|events| - 1])
  }

  /** Every reachable state is sound. */
  lemma ReachableSound(p: Params, events: seq<Event>)
    requires p.Usable() && AllClean(p, events)
    ensures Sound(p, Run(p, events).st)
  {
    assert Restorable(p, Run(p, events));
  }

  // ---------- a run ends where its surviving blocks lead ----------

  /** The connects still standing after a run: a disconnect cancels the latest one standing,
      and a connect that was rejected never stood. */
  ghost function Survivors(p: Params, events: seq<Event>): seq<Event>
    requires p.Usable() && AllClean(p, events)
  {
    if events == [] then [] else
      var init, e := events[..|events| - 1], events[|events| - 1];
      var standing := Survivors(p, init);
      if e.Disconnect? then (if standing == [] then [] else standing[..|standing| - 1])
      else if Apply(p, Run(p, init).st, e.batch, e.blockTime).Ok? then standing + [e]
      else standing
  }

  /** Applying batches in order from the empty relay; None if one is rejected. */
  ghost function Replay(p: Params, connects: seq<Event>): (r: Option<Node>)
    requires p.Usable() && AllClean(p, connects)
    ensures r.Some? ==> Restorable(p, r.value) && |r.value.log| == |connects|
  {
    if connects == [] then
      EmptySound(p);
      Some(Node(EMPTY, []))
    else
      var e := connects[|connects| - 1];
      match Replay(p, connects[..|connects| - 1])
      case None => None
      case Some(node) =>
        if e.Connect? && Apply(p, node.st, e.batch, e.blockTime).Ok? then
          var a := Apply(p, node.st, e.batch, e.blockTime).value;
          ConnectRestorable(p, node, e.batch, e.blockTime);
          Some(Node(a.state, node.log + [a.update]))
        else None
  }

  lemma ReplayRewinds(p: Params, connects: seq<Event>)
    requires p.Usable() && AllClean(p, connects) && connects != []
    requires Replay(p, connects).Some?
    ensures Replay(p, connects[..|connects| - 1]) == Some(Rewound(Replay(p, connects).value))
  {
    hide Apply, RuleOk, LinkOk, GroundedAt, MapsAgree, TipBest, TipStored, Undo;
    var e := connects[|connects| - 1];
    var node := Replay(p, connects[..|connects| - 1]).value;
    ConnectRestorable(p, node, e.batch, e.blockTime);
  }

  /** Any interleaving of connects and disconnects ends in exactly the state, with exactly the
      undo records, of connecting only the surviving batches in order. */
  lemma {:induction false} RunIsReplay(p: Params, events: seq<Event>)
    requires p.Usable() && AllClean(p, events)
    ensures AllClean(p, Survivors(p, events))
    ensures Replay(p, Survivors(p, events)) == Some(Run(p, events))
  {
    hide Apply, RuleOk, LinkOk, GroundedAt, MapsAgree, TipBest, TipStored, Undo;
    if events != [] {
      var init, e := events[..|events| - 1], events[|events| - 1];
      RunIsReplay(p, init);
      var standing := Survivors(p, init);
      if e.Disconnect? {
        if standing != [] { ReplayRewinds(p, standing); }
      } else if Apply(p, Run(p, init).st, e.batch, e.blockTime).Ok? {
        assert (standing + [e])[..|standing|] == standing;
      }
    }
  }

  // ---------- replaying a batch ----------

  /** A known prefix stays known as the tree grows. */
  lemma {:induction false} PrefixStays(p: Params, m: Headers, m': Headers, cur: Cursor, headers: seq<Header>)
    requires Submap(m, m')
    ensures var (k, last) := KnownPrefix(p, m, cur, headers);
            var rest := KnownPrefix(p, m', last, headers[k..]);
            KnownPrefix(p, m', cur, headers) == (k + rest.0, rest.1)
    decreases |headers|
  {
    if headers != [] && Stored(p, m, cur, headers[0]) {
      var hash := p.blockHash(headers[0]);
      var next := Cursor(hash, cur.height + 1, m[hash].totalWork);
      PrefixStays(p, m, m', next, headers[1..]);
      var k := KnownPrefix(p, m, next, headers[1..]).0;
      assert headers[1..][k..] == headers[k + 1..];
    } else {
      assert headers[0..] == headers;
    }
  }

  ghost predicate Holds(m: Headers, staged: seq<Staged>) {
    forall i | 0 <= i < |staged| :: staged[i].hash in m && m[staged[i].hash] == staged[i].entry
  }

  /** The entries of a linked batch, once stored, are a known prefix. */
  lemma {:induction false} EntriesKnown(p: Params, m: Headers, cur: Cursor, headers: seq<Header>)
    requires LinkedFrom(p, cur.hash, headers) && Holds(m, Entries(p, cur, headers))
    ensures KnownPrefix(p, m, cur, headers).0 == |headers|
    decreases |headers|
  {
    if headers != [] {
      var es, next := Entries(p, cur, headers), Next(p, cur, headers[0]);
      var rest := Entries(p, next, headers[1..]);
      assert es[0].hash in m && m[es[0].hash] == EntryFor(cur, headers[0]);
      forall i | 0 <= i < |rest|
        ensures rest[i].hash in m && m[rest[i].hash] == rest[i].entry
      {
        assert rest[i] == es[i + 1];
      }
      EntriesKnown(p, m, next, headers[1..]);
    }
  }

  lemma ApplyLinked(p: Params, st: State, headers: seq<Header>, blockTime: u32)
    requires Sound(p, st) && NoneIsAnchor(p, headers) && Apply(p, st, headers, blockTime).Ok?
    requires headers != [] && Known(p, st.headers, headers[0].prevHash)
    requires EffectOf(p, st, headers).Added?
    ensures var e := EffectOf(p, st, headers);
            e.from < |headers| && LinkedFrom(p, e.cur.hash, headers[e.from..])
  {
    hide CheckHeader, RuleOk, LinkOk, GroundedAt, Commit, TipBest, MapsAgree, TipStored, LinkedFrom;
    var e := EffectOf(p, st, headers);
    assert CursorOk(p, st.headers, e.cur);
    StageLinked(p, st.headers, [], e.cur, headers[e.from..], e.from, blockTime);
  }

  /** After a batch succeeded its headers are a known prefix of every larger tree. */
  lemma AppliedIsKnown(p: Params, st: State, headers: seq<Header>, blockTime: u32, m': Headers)
    requires Sound(p, st) && NoneIsAnchor(p, headers) && Apply(p, st, headers, blockTime).Ok?
    requires Submap(Apply(p, st, headers, blockTime).value.state.headers, m')
    ensures headers != [] && Known(p, st.headers, headers[0].prevHash)
    ensures KnownPrefix(p, m', Start(p, st.headers, headers[0].prevHash).value, headers).0 == |headers|
  {
    hide Apply, RuleOk, LinkOk, GroundedAt, MapsAgree, TipBest, TipStored, Stored, LinkedFrom, Entries;
    ApplyEffect(p, st, headers, blockTime);
    ApplySound(p, st, headers, blockTime);
    var start := Start(p, st.headers, headers[0].prevHash).value;
    PrefixStays(p, st.headers, m', start, headers);
    var e := EffectOf(p, st, headers);
    if e.Added? {
      var es := Entries(p, e.cur, headers[e.from..]);
      ApplyLinked(p, st, headers, blockTime);
      InsertAllAt(st.headers, es);
      CommitHeaders(p, st, es);
      EntriesKnown(p, m', e.cur, headers[e.from..]);
    }
  }

  lemma StartStays(p: Params, m: Headers, m': Headers, prev: Hash)
    requires Submap(m, m') && Known(p, m, prev)
    ensures Start(p, m', prev) == Start(p, m, prev)
  {}

  /** Re-applying a batch that once succeeded, to any state that still holds what it stored and
      at any block time, succeeds, adds no header and changes nothing. */
  lemma ReplayedBatch(p: Params, st: State, headers: seq<Header>, blockTime: u32, later: State, laterTime: u32)
    requires Sound(p, st) && NoneIsAnchor(p, headers) && Apply(p, st, headers, blockTime).Ok?
    requires p.Usable() && Grounded(p, later.headers)
    requires Submap(Apply(p, st, headers, blockTime).value.state.headers, later.headers)
    ensures Apply(p, later, headers, laterTime) == Ok(NoChange(later))
  {
    hide RuleOk, LinkOk, GroundedAt, MapsAgree, TipBest, TipStored, Stored, KnownPrefix, Stage, Commit;
    ApplyEffect(p, st, headers, blockTime);
    ApplySound(p, st, headers, blockTime);
    AppliedIsKnown(p, st, headers, blockTime, later.headers);
    StartStays(p, st.headers, later.headers, headers[0].prevHash);
  }

  /** Connecting further blocks only adds headers. */
  lemma {:induction false} ReplayGrows(p: Params, connects: seq<Event>, n: nat)
    requires p.Usable() && AllClean(p, connects) && n <= |connects| && Replay(p, connects).Some?
    ensures Replay(p, connects[..n]).Some?
    ensures Submap(Replay(p, connects[..n]).value.st.headers, Replay(p, connects).value.st.headers)
  {
    hide Apply, RuleOk, LinkOk, GroundedAt, MapsAgree, TipBest, TipStored;
    if n == |connects| {
      assert connects[..n] == connects;
    } else {
      var init, e := connects[..|connects| - 1], connects[|connects| - 1];
      ReplayGrows(p, init, n);
      assert init[..n] == connects[..n];
      ApplySound(p, Replay(p, init).value.st, e.batch, e.blockTime);
    }
  }

  /** In a run of successful connects, re-submitting the batch of block i at any later time is a no-op. */
  lemma ResubmitInRun(p: Params, connects: seq<Event>, i: nat, laterTime: u32)
    requires p.Usable() && AllClean(p, connects) && i < |connects| && Replay(p, connects).Some?
    ensures connects[i].Connect?
    ensures var st := Replay(p, connects).value.st;
            Grounded(p, st.headers) && Apply(p, st, connects[i].batch, laterTime) == Ok(NoChange(st))
  {
    hide Apply, RuleOk, LinkOk, GroundedAt, MapsAgree, TipBest, TipStored;
    ReplayGrows(p, connects, i);
    ReplayGrows(p, connects, i + 1);
    assert connects[..i + 1][..i] == connects[..i];
    var before := Replay(p, connects[..i]).value;
    assert Restorable(p, Replay(p, connects).value);
    ReplayedBatch(p, before.st, connects[i].batch, connects[i].blockTime, Replay(p, connects).value.st, laterTime);
  }
}
