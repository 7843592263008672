/** Which headers and which batches the relay accepts, said without its own check functions. */
module RelayAccept {
  import opened Basics
  import opened CompactBits
  import opened RelayModel
  import opened RelayTree
  import opened RelayRuns
  import opened RelayMedian
  import opened RelayDifficulty
  import opened RelayRetarget

  // ---------- the times before a header ----------

  /** The time of the header n steps below h, if there is one. */
  ghost function TimeBack(p: Params, m: Headers, h: Hash, n: nat): u32 {
    match Back(p, m, h, n)
    case None => 0
    case Some(a) => if Known(p, m, a) then TimeOf(p, m, a) else 0
  }

  /** The times of h and of the ten headers below it, or of as many as there are down to the anchor. */
  ghost function LastTimes(p: Params, m: Headers, h: Hash): seq<u32>
    requires Known(p, m, h)
  {
    var there := HeightAt(p, m, h) - p.anchor.height + 1;
    seq(if there < 0 then 0 else if there < 11 then there else 11, i requires 0 <= i => TimeBack(p, m, h, i))
  }

  lemma {:induction false} TimesBackAt(p: Params, m: Headers, h: Hash, n: nat)
    requires Linked(p, m) && Known(p, m, h)
    ensures var there := HeightAt(p, m, h) - p.anchor.height + 1;
            there >= 1 && |TimesBack(p, m, h, n)| == (if there < n then there else n) &&
            forall i | 0 <= i < |TimesBack(p, m, h, n)| :: TimesBack(p, m, h, n)[i] == TimeBack(p, m, h, i)
    decreases n
  {
    hide LinkOk;
    if h != p.anchor.hash {
      AboveAnchor(p, m, h);
      ParentLower(p, m, h);
      if n > 0 {
        TimesBackAt(p, m, m[h].header.prevHash, n - 1);
        forall i | 1 <= i < |TimesBack(p, m, h, n)|
          ensures TimesBack(p, m, h, n)[i] == TimeBack(p, m, h, i)
        {
          var j := i - 1;
          assert TimesBack(p, m, h, n)[i] == TimesBack(p, m, m[h].header.prevHash, n - 1)[j];
        }
      }
    }
  }

  /** A time is above the median time past exactly when more than half the last times are below it. */
  lemma MtpExact(p: Params, m: Headers, h: Hash, t: u32)
    requires Linked(p, m) && Known(p, m, h)
    ensures t > Mtp(p, m, h) <==> CountBelow(LastTimes(p, m, h), t) > |LastTimes(p, m, h)| / 2
  {
    hide TimeBack, LinkOk, Median;
    TimesBackAt(p, m, h, 11);
    assert TimesBack(p, m, h, 11) == LastTimes(p, m, h);
    MedianRank(LastTimes(p, m, h), t);
  }

  // ---------- one header ----------

  /** The bits spell the target that the branch below them calls for. */
  ghost predicate BitsFit(p: Params, m: Headers, parent: Hash, bits: u32)
    requires Known(p, m, parent)
  {
    var height, r := HeightAt(p, m, parent) + 1, p.retarget;
    var parentBits := if parent == p.anchor.hash then p.anchor.bits else m[parent].header.bits;
    if r.window == 0 || height % r.window != 0 then Decode(bits) == Decode(parentBits)
    else
      var steps := Lookback(p.kind, r.window, height);
      HeightAt(p, m, parent) < p.anchor.height + steps ||
      exists span, t ::
        Spans(r, Elapsed(TimeOf(p, m, parent), TimeBack(p, m, parent, steps)), span) &&
        Scales(r, Decode(parentBits), span, t) && Decode(bits) == Decode(Encode(t))
  }

  /** What a new header above `parent` has to satisfy. */
  ghost predicate HeaderOk(p: Params, m: Headers, parent: Hash, h: Header, blockTime: u32) {
    h.prevHash == parent && Known(p, m, parent) && p.blockHash(h) !in m &&
    (p.kind.Btc? ==> p.blockHash(h) <= Decode(h.bits)) &&
    BitsFit(p, m, parent, h.bits) &&
    CountBelow(LastTimes(p, m, parent), h.time) > |LastTimes(p, m, parent)| / 2 &&
    h.time <= blockTime + 2 * 60 * 60
  }

  lemma SpansOnce(r: RetargetParams, elapsed: nat, span: nat, span': nat)
    requires r.minDivisor > 0 && Spans(r, elapsed, span) && Spans(r, elapsed, span')
    ensures span == span'
  {
    hide Shortest, Longest;
    var least: nat, most: nat :| Shortest(r, least) && Longest(r, most) &&
      span == if elapsed > most then most else if elapsed >= least then elapsed else if least <= most then least else most;
    var least': nat, most': nat :| Shortest(r, least') && Longest(r, most') &&
      span' == if elapsed > most' then most' else if elapsed >= least' then elapsed else if least' <= most' then least' else most';
    BoundsOnce(r, least, least', most, most');
  }

  lemma BoundsOnce(r: RetargetParams, least: nat, least': nat, most: nat, most': nat)
    requires r.minDivisor > 0 && Shortest(r, least) && Shortest(r, least') && Longest(r, most) && Longest(r, most')
    ensures least == least' && most == most'
  {
    if least < least' { MulMonotone(least + 1, least', r.minDivisor); }
    if least' < least { MulMonotone(least' + 1, least, r.minDivisor); }
  }

  lemma ScalesOnce(r: RetargetParams, parentTarget: nat, span: nat, t: nat, t': nat)
    requires r.expectedTimespan > 0 && Scales(r, parentTarget, span, t) && Scales(r, parentTarget, span, t')
    ensures t == t'
  {
    hide Decode;
    var e := r.expectedTimespan;
    MulMonotone(t + 1, if t < t' then t' else t + 1, e);
    MulMonotone(t' + 1, if t' < t then t else t' + 1, e);
  }

  lemma BitsExact(p: Params, m: Headers, parent: Hash, bits: u32)
    requires p.Usable() && Linked(p, m) && Grounded(p, m) && Known(p, m, parent)
    ensures BitsReject(p, m, HeightAt(p, m, parent) + 1, parent, bits).None? <==> BitsFit(p, m, parent, bits)
  {
    hide Decode, Encode, LinkOk, GroundedAt, ExpectedBits, Spans, Scales;
    var height, r := HeightAt(p, m, parent) + 1, p.retarget;
    ExpectedBitsExact(p, m, parent);
    if IsMultipleOf(height, r.window) {
      MultipleAtLeast(height, r.window);
      var steps := Lookback(p.kind, r.window, height);
      if HeightAt(p, m, parent) >= p.anchor.height + steps {
        var elapsed := Elapsed(TimeOf(p, m, parent), TimeBack(p, m, parent, steps));
        var span, t :| ExpectedBits(p, m, height, parent) == Ok(Encode(t)) &&
          Spans(r, elapsed, span) && Scales(r, Decode(BitsAt(p, m, parent)), span, t);
        forall span', t' | Spans(r, elapsed, span') && Scales(r, Decode(BitsAt(p, m, parent)), span', t')
          ensures t' == t
        {
          SpansOnce(r, elapsed, span, span');
          ScalesOnce(r, Decode(BitsAt(p, m, parent)), span, t, t');
        }
      }
    }
  }

  /** A header passes its checks exactly when it satisfies the rules. */
  lemma HeaderAccepted(p: Params, committed: Headers, m: Headers, cur: Cursor, h: Header, blockTime: u32)
    requires p.Usable() && Linked(p, m) && Grounded(p, m) && CursorAt(p, m, cur) && Submap(committed, m)
    ensures CheckHeader(p, committed, m, cur, h, blockTime).None? <==> HeaderOk(p, m, cur.hash, h, blockTime)
  {
    hide Decode, Mtp, BitsReject, BitsFit, LastTimes, LinkOk, GroundedAt;
    MtpExact(p, m, cur.hash, h.time);
    BitsExact(p, m, cur.hash, h.bits);
  }

  // ---------- a batch ----------

  /** Each header satisfies the rules in the tree that holds the ones before it. */
  ghost predicate AllOk(p: Params, m: Headers, cur: Cursor, headers: seq<Header>, blockTime: u32)
    decreases |headers|
  {
    headers == [] ||
    (HeaderOk(p, m, cur.hash, headers[0], blockTime) &&
     AllOk(p, m[p.blockHash(headers[0]) := EntryFor(cur, headers[0])], Next(p, cur, headers[0]), headers[1..], blockTime))
  }

  lemma {:induction false} StageAccepted(p: Params, committed: Headers, staged: seq<Staged>, cur: Cursor,
                                         headers: seq<Header>, index: nat, blockTime: u32)
    requires StageReady(p, committed, staged, cur) && NoneIsAnchor(p, headers)
    requires p.kind.Ltc? ==> AllMeetPow(p, headers)
    ensures Stage(p, committed, staged, cur, headers, index, blockTime).Ok? <==>
            AllOk(p, InsertAll(committed, staged), cur, headers, blockTime)
    decreases |headers|
  {
    hide CheckHeader, HeaderOk, RuleOk, LinkOk, GroundedAt, InsertAll, EntryFor, Next;
    if headers != [] {
      var m, h := InsertAll(committed, staged), headers[0];
      InsertAllAt(committed, staged);
      HeaderAccepted(p, committed, m, cur, h, blockTime);
      if CheckHeader(p, committed, m, cur, h, blockTime).None? {
        var x := Staged(p.blockHash(h), EntryFor(cur, h));
        StageStep(p, committed, staged, cur, h, blockTime);
        StageUnfold(p, committed, staged, cur, headers, index, blockTime);
        InsertAllSnoc(committed, staged, x);
        StageAccepted(p, committed, staged + [x], Next(p, cur, h), headers[1..], index + 1, blockTime);
      } else if Stage(p, committed, staged, cur, headers, index, blockTime).Ok? {
        StageChecks(p, committed, staged, cur, headers, index, blockTime);
      }
    }
  }

  lemma TailTaken(headers: seq<Header>, k: nat)
    requires 1 <= k <= |headers|
    ensures headers[..k] != [] && headers[..k][0] == headers[0] && headers[..k][1..] == headers[1..][..k - 1]
  {}

  /** A batch is turned away at the first header that does not satisfy the rules. */
  lemma {:induction false} FirstBad(p: Params, committed: Headers, staged: seq<Staged>, cur: Cursor,
                                    headers: seq<Header>, index: nat, blockTime: u32)
    requires StageReady(p, committed, staged, cur) && NoneIsAnchor(p, headers)
    requires p.kind.Ltc? ==> AllMeetPow(p, headers)
    requires Stage(p, committed, staged, cur, headers, index, blockTime).Err?
    ensures var e := Stage(p, committed, staged, cur, headers, index, blockTime).error;
            e.Rejected? && index <= e.index < index + |headers| &&
            AllOk(p, InsertAll(committed, staged), cur, headers[..e.index - index], blockTime) &&
            !AllOk(p, InsertAll(committed, staged), cur, headers[..e.index - index + 1], blockTime)
    decreases |headers|
  {
    hide CheckHeader, HeaderOk, RuleOk, LinkOk, GroundedAt, InsertAll, EntryFor, Next;
    var m, h := InsertAll(committed, staged), headers[0];
    InsertAllAt(committed, staged);
    HeaderAccepted(p, committed, m, cur, h, blockTime);
    if CheckHeader(p, committed, m, cur, h, blockTime).None? {
      var x := Staged(p.blockHash(h), EntryFor(cur, h));
      StageStep(p, committed, staged, cur, h, blockTime);
      StageUnfold(p, committed, staged, cur, headers, index, blockTime);
      InsertAllSnoc(committed, staged, x);
      FirstBad(p, committed, staged + [x], Next(p, cur, h), headers[1..], index + 1, blockTime);
      var k: nat := Stage(p, committed, staged, cur, headers, index, blockTime).error.index - index;
      TailTaken(headers, k);
      TailTaken(headers, k + 1);
    } else {
      assert headers[..0] == [] && headers[..1] == [h];
    }
  }

  // ---------- the part that is stored already ----------

  /** What header i of a batch that starts on `first` should name as its parent. */
  ghost function ParentOf(p: Params, first: Hash, headers: seq<Header>, i: nat): Hash
    requires i <= |headers|
  {
    if i == 0 then first else p.blockHash(headers[i - 1])
  }

  /** Header i follows the one before it and is stored. */
  ghost predicate InPlace(p: Params, m: Headers, first: Hash, headers: seq<Header>, i: nat)
    requires i < |headers|
  {
    headers[i].prevHash == ParentOf(p, first, headers, i) &&
    p.blockHash(headers[i]) in m && m[p.blockHash(headers[i])].header == headers[i]
  }

  /** The known prefix ends before the first header that is not in place, with the cursor on the last
      one that is. */
  lemma {:induction false} PrefixExact(p: Params, m: Headers, cur: Cursor, headers: seq<Header>)
    requires Linked(p, m) && CursorAt(p, m, cur)
    ensures var (k, last) := KnownPrefix(p, m, cur, headers);
            (forall i | 0 <= i < k :: InPlace(p, m, cur.hash, headers, i)) &&
            (k < |headers| ==> !InPlace(p, m, cur.hash, headers, k)) &&
            last.hash == ParentOf(p, cur.hash, headers, k) && CursorAt(p, m, last)
    decreases |headers|
  {
    hide HeightAt, WorkAt;
    if headers != [] {
      StoredInPlace(p, m, cur, headers);
      if Stored(p, m, cur, headers[0]) {
        var hash := p.blockHash(headers[0]);
        var cur' := Cursor(hash, cur.height + 1, m[hash].totalWork);
        assert CursorAt(p, m, cur') by { StoredCursor(p, m, cur, headers[0]); }
        PrefixExact(p, m, cur', headers[1..]);
        var k := KnownPrefix(p, m, cur', headers[1..]).0;
        forall i | 1 <= i <= k
          ensures InPlace(p, m, cur.hash, headers, i)
        {
          var j := i - 1;
          assert InPlace(p, m, hash, headers[1..], j);
          Shifted(p, m, cur.hash, headers, i);
        }
        if k + 1 < |headers| { Shifted(p, m, cur.hash, headers, k + 1); }
      }
    }
  }

  lemma Shifted(p: Params, m: Headers, first: Hash, headers: seq<Header>, i: nat)
    requires 1 <= i < |headers|
    ensures InPlace(p, m, first, headers, i) <==> InPlace(p, m, p.blockHash(headers[0]), headers[1..], i - 1)
  {
    assert headers[1..][i - 1] == headers[i];
    if i > 1 { assert headers[1..][i - 2] == headers[i - 1]; }
  }

  lemma StoredInPlace(p: Params, m: Headers, cur: Cursor, headers: seq<Header>)
    requires Linked(p, m) && CursorAt(p, m, cur) && headers != []
    ensures Stored(p, m, cur, headers[0]) <==> InPlace(p, m, cur.hash, headers, 0)
  {
    if InPlace(p, m, cur.hash, headers, 0) { assert LinkOk(p, m, p.blockHash(headers[0])); }
  }

  lemma StoredCursor(p: Params, m: Headers, cur: Cursor, h: Header)
    requires Linked(p, m) && CursorAt(p, m, cur) && Stored(p, m, cur, h)
    ensures CursorAt(p, m, Cursor(p.blockHash(h), cur.height + 1, m[p.blockHash(h)].totalWork))
  {
    assert LinkOk(p, m, p.blockHash(h));
  }

  // ---------- whether a batch is accepted ----------

  /** Errors found before any state is read, said outright. */
  lemma PrecheckExact(p: Params, headers: seq<Header>)
    ensures Precheck(p, headers).None? <==>
            headers != [] && p.anchor != Anchor(0, 0, 0, 0) &&
            (p.kind.Ltc? ==> |headers| <= 144) &&
            (p.kind.Ltc? ==> forall i | 0 <= i < |headers| :: p.scryptHash(headers[i]) <= Decode(headers[i].bits))
  {
    hide Decode;
    if p.kind.Ltc? && headers != [] {
      var i := FirstPowFailure(p, headers);
      if i < |headers| { assert !p.MeetsPow(headers[i]); } else {
        forall j | 0 <= j < |headers|
          ensures p.scryptHash(headers[j]) <= Decode(headers[j].bits)
        {
          assert p.MeetsPow(headers[j]);
        }
      }
    }
  }

  /** A batch is accepted exactly when it may start where it does and its headers, from the first that
      is not stored already, satisfy the rules one after the other. Going on behind stored headers is
      allowed only at the tip's height or above. */
  lemma ApplyAccepted(p: Params, st: State, headers: seq<Header>, blockTime: u32)
    requires Sound(p, st) && NoneIsAnchor(p, headers)
    ensures Apply(p, st, headers, blockTime).Ok? <==>
            Precheck(p, headers).None? && Known(p, st.headers, headers[0].prevHash) &&
            var (k, cur) := KnownPrefix(p, st.headers, Start(p, st.headers, headers[0].prevHash).value, headers);
            k == |headers| ||
            ((k == 0 || cur.height >= st.tipHeight) && AllOk(p, st.headers, cur, headers[k..], blockTime))
  {
    hide CheckHeader, RuleOk, LinkOk, GroundedAt, Commit, TipBest, MapsAgree, TipStored, AllOk, Stored;
    if Precheck(p, headers).None? && Known(p, st.headers, headers[0].prevHash) {
      var m := st.headers;
      var start := Start(p, m, headers[0].prevHash).value;
      var (k, cur) := KnownPrefix(p, m, start, headers);
      PrefixCursor(p, m, start, headers);
      if k < |headers| {
        assert StageReady(p, m, [], cur);
        assert p.kind.Ltc? ==> AllMeetPow(p, headers[k..]);
        StageAccepted(p, m, [], cur, headers[k..], k, blockTime);
      }
    }
  }

  lemma {:induction false} AllOkInTime(p: Params, m: Headers, cur: Cursor, headers: seq<Header>, blockTime: u32, i: nat)
    requires AllOk(p, m, cur, headers, blockTime) && i < |headers|
    ensures headers[i].time <= blockTime + 7200
    decreases |headers|
  {
    hide BitsFit, LastTimes;
    if i > 0 {
      AllOkInTime(p, m[p.blockHash(headers[0]) := EntryFor(cur, headers[0])], Next(p, cur, headers[0]), headers[1..], blockTime, i - 1);
    }
  }

  /** Every header an apply adds is one of the batch, and is at most two hours ahead of the block. */
  lemma AddedInTime(p: Params, st: State, headers: seq<Header>, blockTime: u32, h: Hash)
    requires Sound(p, st) && NoneIsAnchor(p, headers) && Apply(p, st, headers, blockTime).Ok?
    requires h in Apply(p, st, headers, blockTime).value.state.headers && h !in st.headers
    ensures exists i :: 0 <= i < |headers| && p.blockHash(headers[i]) == h &&
              Apply(p, st, headers, blockTime).value.state.headers[h].header == headers[i] &&
              headers[i].time <= blockTime + 7200
  {
    hide Apply, RuleOk, LinkOk, GroundedAt, TipBest, MapsAgree, TipStored, AllOk;
    ApplyAccepted(p, st, headers, blockTime);
    ApplyEffect(p, st, headers, blockTime);
    match EffectOf(p, st, headers)
    case Nothing =>
    case Added(cur, k) =>
      var es := Entries(p, cur, headers[k..]);
      InsertAllAt(st.headers, es);
      var i :| 0 <= i < |es| && es[i].hash == h;
      EntryIs(p, cur, headers[k..], i);
      AllOkInTime(p, st.headers, cur, headers[k..], blockTime, i);
      assert headers[k..][i] == headers[k + i];
  }

  lemma {:induction false} EntryIs(p: Params, cur: Cursor, headers: seq<Header>, i: nat)
    requires i < |headers|
    ensures Entries(p, cur, headers)[i].hash == p.blockHash(headers[i])
    ensures Entries(p, cur, headers)[i].entry.header == headers[i]
    decreases |headers|
  {
    if i > 0 { EntryIs(p, Next(p, cur, headers[0]), headers[1..], i - 1); }
  }
}
