/** What the stored headers look like: a tree under the anchor in which every header obeys
    the rules it was checked against, and goes on obeying them as the tree grows. */
module RelayTree {
  import opened Basics
  import opened CompactBits
  import opened RelayModel

  function HeightAt(p: Params, m: Headers, h: Hash): nat
    requires Known(p, m, h)
  {
    if h == p.anchor.hash then p.anchor.height else m[h].height
  }

  function WorkAt(p: Params, m: Headers, h: Hash): nat
    requires Known(p, m, h)
  {
    if h == p.anchor.hash then Work(p.anchor.bits) else m[h].totalWork
  }

  /** The entry sits under its own hash, one above its parent, with its parent's work plus its own. */
  ghost predicate LinkOk(p: Params, m: Headers, h: Hash)
    requires h in m
  {
    var e := m[h];
    var q := e.header.prevHash;
    p.blockHash(e.header) == h && Known(p, m, q) &&
    e.height == HeightAt(p, m, q) + 1 && e.totalWork == WorkAt(p, m, q) + Work(e.header.bits)
  }

  ghost predicate Linked(p: Params, m: Headers) {
    p.anchor.hash !in m && forall h | h in m :: LinkOk(p, m, h)
  }

  lemma LinkedGrounded(p: Params, m: Headers)
    requires Linked(p, m)
    ensures Grounded(p, m)
  {
    forall h | h in m
      ensures GroundedAt(p, m, h)
    {
      assert LinkOk(p, m, h);
    }
  }

  /** Proof of work, difficulty and median time, judged in the tree as it is now. */
  ghost predicate RuleOk(p: Params, m: Headers, h: Hash)
    requires p.Usable() && Grounded(p, m) && h in m
  {
    var e := m[h];
    p.MeetsPow(e.header) && e.header.time > Mtp(p, m, e.header.prevHash) &&
    BitsReject(p, m, e.height, e.header.prevHash, e.header.bits).None?
  }

  ghost predicate Tree(p: Params, m: Headers) {
    p.Usable() && Linked(p, m) && Grounded(p, m) && forall h | h in m :: RuleOk(p, m, h)
  }

  ghost predicate CursorAt(p: Params, m: Headers, cur: Cursor) {
    Known(p, m, cur.hash) && cur.height == HeightAt(p, m, cur.hash) && cur.work == WorkAt(p, m, cur.hash)
  }

  ghost predicate Submap(m: Headers, m': Headers) {
    forall h | h in m :: h in m' && m'[h] == m[h]
  }

  // ---------- growth changes no verdict ----------

  lemma {:induction false} TimesBackStable(p: Params, m: Headers, m': Headers, h: Hash, n: nat)
    requires Linked(p, m) && Submap(m, m') && Known(p, m, h)
    ensures TimesBack(p, m, h, n) == TimesBack(p, m', h, n)
    decreases n
  {
    if n > 0 && h != p.anchor.hash {
      assert LinkOk(p, m, h);
      TimesBackStable(p, m, m', m[h].header.prevHash, n - 1);
    }
  }

  lemma MtpStable(p: Params, m: Headers, m': Headers, h: Hash)
    requires Linked(p, m) && Submap(m, m') && Known(p, m, h)
    ensures Mtp(p, m, h) == Mtp(p, m', h)
  {
    TimesBackStable(p, m, m', h, MTP_WINDOW);
  }

  lemma {:induction false} WalkTimeStable(p: Params, m: Headers, m': Headers, h: Hash, target: nat)
    requires Linked(p, m) && Grounded(p, m) && Grounded(p, m') && Submap(m, m') && Known(p, m, h)
    ensures WalkTime(p, m, h, target) == WalkTime(p, m', h, target)
    decreases if h == p.anchor.hash || h !in m then 0 else m[h].height + 1
  {
    if h != p.anchor.hash && m[h].height > target {
      assert LinkOk(p, m, h);
      WalkTimeStable(p, m, m', m[h].header.prevHash, target);
    }
  }

  lemma BitsRejectStable(p: Params, m: Headers, m': Headers, height: nat, parent: Hash, bits: u32)
    requires p.Usable() && Linked(p, m) && Grounded(p, m) && Grounded(p, m') && Submap(m, m')
    requires Known(p, m, parent)
    ensures BitsReject(p, m, height, parent, bits) == BitsReject(p, m', height, parent, bits)
  {
    if height > 0 && IsMultipleOf(height, p.retarget.window) {
      WalkTimeStable(p, m, m', parent, FirstHeight(p.kind, p.retarget.window, height));
    }
  }

  lemma RuleStable(p: Params, m: Headers, m': Headers, h: Hash)
    requires Tree(p, m) && Submap(m, m') && Grounded(p, m') && h in m
    ensures RuleOk(p, m', h)
  {
    var e := m[h];
    assert RuleOk(p, m, h) && LinkOk(p, m, h);
    MtpStable(p, m, m', e.header.prevHash);
    BitsRejectStable(p, m, m', e.height, e.header.prevHash, e.header.bits);
  }

  lemma LinkedGrows(p: Params, m: Headers, cur: Cursor, h: Header)
    requires Linked(p, m) && CursorAt(p, m, cur) && h.prevHash == cur.hash
    requires p.blockHash(h) !in m && p.blockHash(h) != p.anchor.hash
    ensures var m' := m[p.blockHash(h) := EntryFor(cur, h)];
            Submap(m, m') && Linked(p, m') && Grounded(p, m') && CursorAt(p, m', Next(p, cur, h))
  {
    var m' := m[p.blockHash(h) := EntryFor(cur, h)];
    assert Submap(m, m');
    forall x | x in m'
      ensures LinkOk(p, m', x)
    {
      if x != p.blockHash(h) { assert LinkOk(p, m, x); }
    }
    LinkedGrounded(p, m');
  }

  /** A header that passes its checks extends the tree. */
  lemma TreeGrows(p: Params, committed: Headers, m: Headers, cur: Cursor, h: Header, blockTime: u32)
    requires Tree(p, m) && CursorAt(p, m, cur) && Submap(committed, m)
    requires CheckHeader(p, committed, m, cur, h, blockTime).None?
    requires p.MeetsPow(h) && p.blockHash(h) != p.anchor.hash
    ensures var m' := m[p.blockHash(h) := EntryFor(cur, h)];
            p.blockHash(h) !in m && Submap(m, m') && Tree(p, m') && CursorAt(p, m', Next(p, cur, h))
  {
    var hash := p.blockHash(h);
    var m' := m[hash := EntryFor(cur, h)];
    LinkedGrows(p, m, cur, h);
    NewRule(p, committed, m, m', cur, h, blockTime);
    forall x | x in m'
      ensures RuleOk(p, m', x)
    {
      if x != hash { RuleStable(p, m, m', x); }
    }
  }

  lemma NewRule(p: Params, committed: Headers, m: Headers, m': Headers, cur: Cursor, h: Header, blockTime: u32)
    requires p.Usable() && Linked(p, m) && Grounded(p, m) && Known(p, m, cur.hash)
    requires Submap(m, m') && Grounded(p, m') && p.MeetsPow(h)
    requires CheckHeader(p, committed, m, cur, h, blockTime).None?
    requires p.blockHash(h) in m' && m'[p.blockHash(h)] == EntryFor(cur, h)
    ensures RuleOk(p, m', p.blockHash(h))
  {
    hide Mtp, BitsReject, Decode;
    MtpStable(p, m, m', cur.hash);
    BitsRejectStable(p, m, m', cur.height + 1, cur.hash, h.bits);
  }

  // ---------- what staging produces ----------

  /** The entries a run of headers turns into, checks aside. */
  function Entries(p: Params, cur: Cursor, headers: seq<Header>): (es: seq<Staged>)
    ensures |es| == |headers|
    decreases |headers|
  {
    if headers == [] then [] else
      [Staged(p.blockHash(headers[0]), EntryFor(cur, headers[0]))] + Entries(p, Next(p, cur, headers[0]), headers[1..])
  }

  ghost predicate NoneIsAnchor(p: Params, headers: seq<Header>) {
    forall i | 0 <= i < |headers| :: p.blockHash(headers[i]) != p.anchor.hash
  }

  ghost predicate AllMeetPow(p: Params, headers: seq<Header>) {
    forall i | 0 <= i < |headers| :: p.MeetsPow(headers[i])
  }

  /** Distinct keys, none of them in `m`. */
  ghost predicate Disjoint(m: Headers, staged: seq<Staged>) {
    (forall i | 0 <= i < |staged| :: staged[i].hash !in m) &&
    (forall i, j | 0 <= i < j < |staged| :: staged[i].hash != staged[j].hash)
  }

  lemma {:induction false} InsertAllAt(m: Headers, staged: seq<Staged>)
    requires Disjoint(m, staged)
    ensures Submap(m, InsertAll(m, staged))
    ensures forall i | 0 <= i < |staged| ::
              staged[i].hash in InsertAll(m, staged) && InsertAll(m, staged)[staged[i].hash] == staged[i].entry
    ensures forall h | h in InsertAll(m, staged) :: h in m || exists i :: 0 <= i < |staged| && staged[i].hash == h
  {
    if staged != [] {
      var init := staged[..|staged| - 1];
      InsertAllAt(m, init);
      assert forall h | h in InsertAll(m, init) && h !in m :: exists i :: 0 <= i < |init| && init[i].hash == h;
    }
  }

  lemma DisjointSnoc(m: Headers, staged: seq<Staged>, x: Staged)
    requires Disjoint(m, staged) && x.hash !in m && x.hash !in InsertAll(m, staged)
    ensures Disjoint(m, staged + [x])
  {
    InsertAllAt(m, staged);
  }

  /** One header of a batch that stages. */
  lemma StageStep(p: Params, committed: Headers, staged: seq<Staged>, cur: Cursor, h: Header, blockTime: u32)
    requires Tree(p, InsertAll(committed, staged)) && CursorAt(p, InsertAll(committed, staged), cur)
    requires Disjoint(committed, staged) && p.blockHash(h) != p.anchor.hash
    requires p.kind.Ltc? ==> p.MeetsPow(h)
    requires CheckHeader(p, committed, InsertAll(committed, staged), cur, h, blockTime).None?
    ensures var staged' := staged + [Staged(p.blockHash(h), EntryFor(cur, h))];
            Tree(p, InsertAll(committed, staged')) && Disjoint(committed, staged') &&
            CursorAt(p, InsertAll(committed, staged'), Next(p, cur, h))
  {
    var x := Staged(p.blockHash(h), EntryFor(cur, h));
    InsertAllAt(committed, staged);
    InsertAllSnoc(committed, staged, x);
    TreeGrows(p, committed, InsertAll(committed, staged), cur, h, blockTime);
    DisjointSnoc(committed, staged, x);
  }

  lemma StageUnfold(p: Params, committed: Headers, staged: seq<Staged>, cur: Cursor,
                    headers: seq<Header>, index: nat, blockTime: u32)
    requires p.Usable() && Grounded(p, InsertAll(committed, staged)) && headers != []
    requires CursorOk(p, InsertAll(committed, staged), cur)
    requires CheckHeader(p, committed, InsertAll(committed, staged), cur, headers[0], blockTime).None?
    ensures var h := headers[0];
            var staged' := staged + [Staged(p.blockHash(h), EntryFor(cur, h))];
            Grounded(p, InsertAll(committed, staged')) &&
            CursorOk(p, InsertAll(committed, staged'), Next(p, cur, h)) &&
            Stage(p, committed, staged, cur, headers, index, blockTime) ==
            Stage(p, committed, staged', Next(p, cur, h), headers[1..], index + 1, blockTime)
  {
    var h := headers[0];
    InsertAllSnoc(committed, staged, Staged(p.blockHash(h), EntryFor(cur, h)));
    GroundedGrows(p, InsertAll(committed, staged), cur, h);
  }

  lemma StageChecks(p: Params, committed: Headers, staged: seq<Staged>, cur: Cursor,
                    headers: seq<Header>, index: nat, blockTime: u32)
    requires p.Usable() && Grounded(p, InsertAll(committed, staged)) && headers != []
    requires CursorOk(p, InsertAll(committed, staged), cur)
    requires Stage(p, committed, staged, cur, headers, index, blockTime).Ok?
    ensures CheckHeader(p, committed, InsertAll(committed, staged), cur, headers[0], blockTime).None?
  {}

  ghost predicate StageReady(p: Params, committed: Headers, staged: seq<Staged>, cur: Cursor) {
    Tree(p, InsertAll(committed, staged)) && CursorAt(p, InsertAll(committed, staged), cur) &&
    Disjoint(committed, staged)
  }

  /** A batch that stages leaves a tree, and its entries are the ones its headers spell out. */
  lemma {:induction false} StageTree(p: Params, committed: Headers, staged: seq<Staged>, cur: Cursor,
                                     headers: seq<Header>, index: nat, blockTime: u32)
    requires StageReady(p, committed, staged, cur) && NoneIsAnchor(p, headers)
    requires p.kind.Ltc? ==> AllMeetPow(p, headers)
    requires Stage(p, committed, staged, cur, headers, index, blockTime).Ok?
    ensures var r := Stage(p, committed, staged, cur, headers, index, blockTime).value;
            r == staged + Entries(p, cur, headers) && Tree(p, InsertAll(committed, r)) && Disjoint(committed, r)
    decreases |headers|
  {
    hide CheckHeader, RuleOk, LinkOk, GroundedAt;
    if headers == [] {
    } else {
      var h, rest := headers[0], headers[1..];
      var x := Staged(p.blockHash(h), EntryFor(cur, h));
      StageChecks(p, committed, staged, cur, headers, index, blockTime);
      StageStep(p, committed, staged, cur, h, blockTime);
      StageUnfold(p, committed, staged, cur, headers, index, blockTime);
      assert StageReady(p, committed, staged + [x], Next(p, cur, h));
      assert NoneIsAnchor(p, rest);
      StageTree(p, committed, staged + [x], Next(p, cur, h), rest, index + 1, blockTime);
      assert staged + [x] + Entries(p, Next(p, cur, h), rest) == staged + Entries(p, cur, headers);
    }
  }

  /** Each header names the one before it, the first one names `hash`. */
  predicate LinkedFrom(p: Params, hash: Hash, headers: seq<Header>)
    decreases |headers|
  {
    headers == [] ||
    (headers[0].prevHash == hash && LinkedFrom(p, p.blockHash(headers[0]), headers[1..]))
  }

  lemma {:induction false} StageLinked(p: Params, committed: Headers, staged: seq<Staged>, cur: Cursor,
                                       headers: seq<Header>, index: nat, blockTime: u32)
    requires p.Usable() && Grounded(p, InsertAll(committed, staged))
    requires CursorOk(p, InsertAll(committed, staged), cur)
    requires Stage(p, committed, staged, cur, headers, index, blockTime).Ok?
    ensures LinkedFrom(p, cur.hash, headers)
    decreases |headers|
  {
    hide GroundedAt, BitsReject, Mtp;
    if headers != [] {
      var h := headers[0];
      StageChecks(p, committed, staged, cur, headers, index, blockTime);
      StageUnfold(p, committed, staged, cur, headers, index, blockTime);
      StageLinked(p, committed, staged + [Staged(p.blockHash(h), EntryFor(cur, h))], Next(p, cur, h),
                  headers[1..], index + 1, blockTime);
    }
  }

  /** Work never falls along a batch, and its heights count up. */
  lemma {:induction false} EntriesOrdered(p: Params, cur: Cursor, headers: seq<Header>, i: nat)
    requires i < |headers|
    ensures var es := Entries(p, cur, headers);
            es[i].hash == p.blockHash(headers[i]) && es[i].entry.header == headers[i] &&
            es[i].entry.height == cur.height + 1 + i &&
            cur.work <= es[i].entry.totalWork <= es[|es| - 1].entry.totalWork &&
            (i < |headers| - 1 ==>
               es[i].entry.totalWork + Work(headers[|headers| - 1].bits) <= es[|es| - 1].entry.totalWork)
    decreases |headers|
  {
    var next := Next(p, cur, headers[0]);
    if i > 0 {
      EntriesOrdered(p, next, headers[1..], i - 1);
    } else if |headers| > 1 {
      LastWork(p, next, headers[1..]);
    }
  }

  lemma {:induction false} LastWork(p: Params, cur: Cursor, headers: seq<Header>)
    requires headers != []
    ensures cur.work + Work(headers[|headers| - 1].bits) <= Entries(p, cur, headers)[|headers| - 1].entry.totalWork
    decreases |headers|
  {
    if |headers| > 1 { LastWork(p, Next(p, cur, headers[0]), headers[1..]); }
  }
}
