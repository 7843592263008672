/** The relay as the node runs it: two maps and a tip updated in place, batches staged in a
    vector before anything is committed. Every method is proved against RelayModel. */
module HeaderRelay {
  import opened Basics
  import opened CompactBits
  import opened RelayModel

  // ---------- LookupView ----------

  function FindLast(staged: seq<Staged>, h: Hash): Option<Entry> {
    if staged == [] then None
    else if staged[|staged| - 1].hash == h then Some(staged[|staged| - 1].entry)
    else FindLast(staged[..|staged| - 1], h)
  }

  /** LookupView::get: committed headers first, then the staged ones from the back. */
  function Lookup(committed: Headers, staged: seq<Staged>, h: Hash): Option<Entry> {
    if h in committed then Some(committed[h]) else FindLast(staged, h)
  }

  ghost predicate FreshStaged(committed: Headers, staged: seq<Staged>) {
    forall i | 0 <= i < |staged| :: staged[i].hash !in committed
  }

  /** Reading through the view is reading the map that committing would produce. */
  lemma {:induction false} LookupReadsCommit(committed: Headers, staged: seq<Staged>, h: Hash)
    requires FreshStaged(committed, staged)
    ensures var m := InsertAll(committed, staged);
            Lookup(committed, staged, h) == if h in m then Some(m[h]) else None
  {
    if staged != [] {
      LookupReadsCommit(committed, staged[..|staged| - 1], h);
    }
  }

  // ---------- the probe and the prefix scan ----------

  /** The Bitcoin probe answers exactly when the prefix scan counts the whole batch. */
  lemma {:induction false} ProbeIsFullPrefix(p: Params, m: Headers, cur: Cursor, cur': Cursor, batch: seq<Header>)
    requires cur.hash == cur'.hash && cur.height == cur'.height
    ensures AllKnown(p, m, cur, batch) <==> KnownPrefix(p, m, cur', batch).0 == |batch|
    decreases |batch|
  {
    if batch != [] && Stored(p, m, cur, batch[0]) {
      var hash := p.blockHash(batch[0]);
      ProbeIsFullPrefix(p, m, Cursor(hash, cur.height + 1, cur.work),
                        Cursor(hash, cur.height + 1, m[hash].totalWork), batch[1..]);
    }
  }

  /** Staging looks at the first header and goes on behind it. */
  lemma StageFirst(p: Params, committed: Headers, staged: seq<Staged>, cur: Cursor,
                   rest: seq<Header>, index: nat, blockTime: u32)
    requires p.Usable() && Grounded(p, InsertAll(committed, staged)) && rest != []
    requires CursorOk(p, InsertAll(committed, staged), cur)
    ensures var check := CheckHeader(p, committed, InsertAll(committed, staged), cur, rest[0], blockTime);
            var staged' := staged + [Staged(p.blockHash(rest[0]), EntryFor(cur, rest[0]))];
            if check.Some?
            then Stage(p, committed, staged, cur, rest, index, blockTime) == Err(Rejected(index, check.value))
            else p.blockHash(rest[0]) !in committed && p.blockHash(rest[0]) !in InsertAll(committed, staged) &&
                 Grounded(p, InsertAll(committed, staged')) &&
                 CursorOk(p, InsertAll(committed, staged'), Next(p, cur, rest[0])) &&
                 Stage(p, committed, staged, cur, rest, index, blockTime) ==
                 Stage(p, committed, staged', Next(p, cur, rest[0]), rest[1..], index + 1, blockTime)
  {
    hide BitsReject, Mtp, GroundedAt;
    var m, h := InsertAll(committed, staged), rest[0];
    if CheckHeader(p, committed, m, cur, h, blockTime).None? {
      InsertAllSnoc(committed, staged, Staged(p.blockHash(h), EntryFor(cur, h)));
      GroundedGrows(p, m, cur, h);
    }
  }

  lemma StageDone(p: Params, committed: Headers, staged: seq<Staged>, cur: Cursor,
                  rest: seq<Header>, index: nat, blockTime: u32)
    requires p.Usable() && Grounded(p, InsertAll(committed, staged)) && rest == []
    requires CursorOk(p, InsertAll(committed, staged), cur)
    ensures Stage(p, committed, staged, cur, rest, index, blockTime) == Ok(staged)
  {
    hide CheckHeader;
  }

  class Relay {
    const p: Params
    var headers: Headers
    var heights: map<Hash, nat>
    var tip: Option<Hash>
    var tipHeight: nat

    ghost function St(): State
      reads this
    {
      State(headers, heights, tip, tipHeight)
    }

    ghost predicate Valid()
      reads this
    {
      p.Usable() && Grounded(p, headers)
    }

    constructor (p: Params)
      requires p.Usable()
      ensures this.p == p && Valid() && St() == EMPTY
    {
      this.p := p;
      headers, heights, tip, tipHeight := map[], map[], None, 0;
    }

    /** The walk of median_time_past_v: at most `window` times, back to the anchor. */
    method CollectTimes(staged: seq<Staged>, h: Hash, window: nat) returns (times: seq<u32>)
      requires FreshStaged(headers, staged)
      ensures times == TimesBack(p, InsertAll(headers, staged), h, window)
    {
      ghost var m := InsertAll(headers, staged);
      times := [];
      var cur := h;
      while |times| < window
        invariant |times| <= window
        invariant times + TimesBack(p, m, cur, window - |times|) == TimesBack(p, m, h, window)
      {
        if cur == p.anchor.hash {
          times := times + [p.anchor.time];
          break;
        }
        LookupReadsCommit(headers, staged, cur);
        var found := Lookup(headers, staged, cur);
        if found.None? {
          break;
        }
        ghost var rest := TimesBack(p, m, found.value.header.prevHash, window - |times| - 1);
        assert times + ([found.value.header.time] + rest) == times + [found.value.header.time] + rest;
        times := times + [found.value.header.time];
        cur := found.value.header.prevHash;
      }
    }

    /** median_time_past_v. */
    method MedianTimePast(staged: seq<Staged>, h: Hash) returns (mtp: u32)
      requires FreshStaged(headers, staged)
      ensures mtp == Mtp(p, InsertAll(headers, staged), h)
    {
      var times := CollectTimes(staged, h, MTP_WINDOW);
      if times == [] {
        return 0;
      }
      SortLength(times);
      mtp := Sort(times)[|times| / 2];
    }

    /** find_ancestor_time_at_height_v. */
    method FindAncestorTime(staged: seq<Staged>, h: Hash, target: nat) returns (r: Result<u32, WalkError>)
      requires FreshStaged(headers, staged) && Grounded(p, InsertAll(headers, staged))
      ensures r == WalkTime(p, InsertAll(headers, staged), h, target)
    {
      ghost var m := InsertAll(headers, staged);
      if target == p.anchor.height {
        return Ok(p.anchor.time);
      }
      var cur := h;
      while true
        invariant WalkTime(p, m, cur, target) == WalkTime(p, m, h, target)
        decreases if cur == p.anchor.hash || cur !in m then 0 else m[cur].height + 1
      {
        if cur == p.anchor.hash {
          return Err(ReachedAnchor);
        }
        LookupReadsCommit(headers, staged, cur);
        var found := Lookup(headers, staged, cur);
        if found.None? {
          return Err(MissingHeader);
        }
        if found.value.height == target {
          return Ok(found.value.header.time);
        }
        if found.value.height < target {
          return Err(WalkedPast);
        }
        assert GroundedAt(p, m, cur);
        cur := found.value.header.prevHash;
      }
    }

    /** expected_bits_for_v. */
    method ExpectedBitsFor(staged: seq<Staged>, height: nat, parent: Hash) returns (r: Result<u32, BitsError>)
      requires Valid() && FreshStaged(headers, staged) && Grounded(p, InsertAll(headers, staged))
      ensures r == ExpectedBits(p, InsertAll(headers, staged), height, parent)
    {
      ghost var m := InsertAll(headers, staged);
      if height == 0 {
        return Err(HeightZero);
      }
      var parentBits, parentTime := p.anchor.bits, p.anchor.time;
      if parent != p.anchor.hash {
        LookupReadsCommit(headers, staged, parent);
        var found := Lookup(headers, staged, parent);
        if found.None? {
          return Err(ParentUnknown);
        }
        parentBits, parentTime := found.value.header.bits, found.value.header.time;
      }
      if !IsMultipleOf(height, p.retarget.window) {
        return Ok(parentBits);
      }
      var first := FirstHeight(p.kind, p.retarget.window, height);
      if first < p.anchor.height {
        return Err(WindowBeforeAnchor);
      }
      var walked := FindAncestorTime(staged, parent, first);
      if walked.Err? {
        return Err(Walk(walked.error));
      }
      var target := Retargeted(p.retarget, parentBits, parentTime, walked.value);
      var bits := TargetToCompactBits(target);
      r := Ok(bits);
    }

    /** The checks on one new header, in the source's order. */
    method Check(staged: seq<Staged>, cur: Cursor, h: Header, blockTime: u32) returns (reason: Option<Reject>)
      requires Valid() && FreshStaged(headers, staged) && Grounded(p, InsertAll(headers, staged))
      ensures reason == CheckHeader(p, headers, InsertAll(headers, staged), cur, h, blockTime)
    {
      if h.prevHash != cur.hash {
        return Some(NotLinked);
      }
      var hash := p.blockHash(h);
      if hash in headers {
        return Some(AlreadyKnown);
      }
      var duplicate := IsStaged(staged, hash);
      LookupReadsCommit(headers, staged, hash);
      if duplicate {
        return Some(Duplicated);
      }
      if p.kind.Btc? && !p.MeetsPow(h) {
        return Some(FailsPow);
      }
      var expected := ExpectedBitsFor(staged, cur.height + 1, cur.hash);
      var mtp := MedianTimePast(staged, cur.hash);
      if expected.Err? && !expected.error.WindowBeforeAnchor? {
        return Some(BadBits(expected.error));
      }
      if expected.Ok? && Decode(h.bits) != Decode(expected.value) {
        return Some(BitsMismatch(expected.value, h.bits));
      }
      if h.time <= mtp {
        return Some(NotAboveMtp(mtp));
      }
      if h.time > Saturated(blockTime + MAX_FUTURE_SECS) {
        return Some(TooFarAhead);
      }
      return None;
    }

    /** The known-prefix scan. */
    method ScanPrefix(start: Cursor, batch: seq<Header>) returns (k: nat, cur: Cursor)
      ensures (k, cur) == KnownPrefix(p, headers, start, batch)
    {
      k, cur := 0, start;
      while k < |batch|
        invariant k <= |batch|
        invariant var rest := KnownPrefix(p, headers, cur, batch[k..]);
                  KnownPrefix(p, headers, start, batch) == (k + rest.0, rest.1)
      {
        if batch[k].prevHash != cur.hash {
          break;
        }
        var hash := p.blockHash(batch[k]);
        if hash !in headers || headers[hash].height != cur.height + 1 || headers[hash].header != batch[k] {
          break;
        }
        assert batch[k..][1..] == batch[k + 1..];
        cur := Cursor(hash, cur.height + 1, headers[hash].totalWork);
        k := k + 1;
      }
    }

    /** The Bitcoin relay's idempotency probe. */
    method Probe(start: Cursor, batch: seq<Header>) returns (known: bool)
      ensures known == AllKnown(p, headers, start, batch)
    {
      var cur := start;
      for i := 0 to |batch|
        invariant AllKnown(p, headers, start, batch) == AllKnown(p, headers, cur, batch[i..])
      {
        if batch[i].prevHash != cur.hash {
          return false;
        }
        var hash := p.blockHash(batch[i]);
        if hash !in headers || headers[hash].height != cur.height + 1 || headers[hash].header != batch[i] {
          return false;
        }
        assert batch[i..][1..] == batch[i + 1..];
        cur := Cursor(hash, cur.height + 1, cur.work);
      }
      return true;
    }

    /** Validation of the new headers into a vector; no field changes. */
    method StageAll(start: Cursor, batch: seq<Header>, k: nat, blockTime: u32) returns (r: Result<seq<Staged>, Error>)
      requires Valid() && CursorOk(p, headers, start) && k <= |batch|
      ensures r == Stage(p, headers, [], start, batch[k..], k, blockTime)
      ensures r.Ok? ==> FreshStaged(headers, r.value)
    {
      hide Stage, CheckHeader;
      var staged: seq<Staged> := [];
      var cur := start;
      var i := k;
      while i < |batch|
        invariant k <= i <= |batch|
        invariant FreshStaged(headers, staged)
        invariant Grounded(p, InsertAll(headers, staged)) && CursorOk(p, InsertAll(headers, staged), cur)
        invariant Stage(p, headers, staged, cur, batch[i..], i, blockTime) ==
                  Stage(p, headers, [], start, batch[k..], k, blockTime)
      {
        var reason := Check(staged, cur, batch[i], blockTime);
        StageFirst(p, headers, staged, cur, batch[i..], i, blockTime);
        if reason.Some? {
          return Err(Rejected(i, reason.value));
        }
        var x := Staged(p.blockHash(batch[i]), EntryFor(cur, batch[i]));
        InsertAllSnoc(headers, staged, x);
        assert batch[i..][1..] == batch[i + 1..];
        staged := staged + [x];
        cur := Next(p, cur, batch[i]);
        i := i + 1;
      }
      StageDone(p, headers, staged, cur, batch[i..], i, blockTime);
      r := Ok(staged);
    }

    /** Move the staged headers into both maps and switch the tip to a branch with more work. */
    method CommitStaged(staged: seq<Staged>) returns (u: Update)
      requires Valid() && staged != []
      modifies this
      ensures Applied(St(), u) == Commit(p, old(St()), staged)
    {
      var tipBefore, tipHeightBefore := tip, tipHeight;
      var added: seq<Hash> := [];
      for i := 0 to |staged|
        invariant headers == InsertAll(old(headers), staged[..i])
        invariant heights == InsertHeights(old(heights), staged[..i])
        invariant tip == tipBefore && tipHeight == tipHeightBefore
        invariant added == Hashes(staged)[..i]
      {
        added := added + [staged[i].hash];
        heights := heights[staged[i].hash := staged[i].entry.height];
        headers := headers[staged[i].hash := staged[i].entry];
        assert staged[..i + 1] == staged[..i] + [staged[i]];
        InsertAllSnoc(old(headers), staged[..i], staged[i]);
        InsertHeightsSnoc(old(heights), staged[..i], staged[i]);
      }
      assert staged[..|staged|] == staged;
      var last := staged[|staged| - 1];
      var tipWork := if tipBefore.None? then Work(p.anchor.bits)
                     else if tipBefore.value in headers then headers[tipBefore.value].totalWork else 0;
      if last.entry.totalWork > tipWork {
        tip, tipHeight := Some(last.hash), last.entry.height;
      }
      u := Update(tipBefore, tipHeightBefore, added);
    }

    /** apply_btc_header_batch and apply_ltc_header_batch: on an error nothing changes. */
    method ApplyBatch(batch: seq<Header>, blockTime: u32) returns (r: Result<Update, Error>)
      requires Valid()
      modifies this
      ensures Valid()
      ensures match Apply(p, old(St()), batch, blockTime)
              case Err(e) => r == Err(e) && St() == old(St())
              case Ok(a) => r == Ok(a.update) && St() == a.state
    {
      if batch == [] {
        return Err(EmptyBatch);
      }
      if p.kind.Ltc? && |batch| > MAX_LTC_BATCH {
        return Err(TooManyHeaders);
      }
      if p.anchor.IsZero() {
        return Err(AnchorNotConfigured);
      }
      if p.kind.Ltc? {
        var i := FindPowFailure(p, batch);
        if i < |batch| {
          return Err(Rejected(i, FailsPow));
        }
      }
      var start := Start(p, headers, batch[0].prevHash);
      if start.None? {
        return Err(NotConnected);
      }
      if p.kind.Btc? {
        var known := Probe(start.value, batch);
        ProbeIsFullPrefix(p, headers, start.value, start.value, batch);
        if known {
          return Ok(Update(tip, tipHeight, []));
        }
      }
      var k, cur := ScanPrefix(start.value, batch);
      if k == |batch| {
        return Ok(Update(tip, tipHeight, []));
      }
      if k > 0 && cur.height < tipHeight {
        return Err(NonTipFork);
      }
      var staged := StageAll(cur, batch, k, blockTime);
      if staged.Err? {
        return Err(staged.error);
      }
      StageGrows(p, headers, [], cur, batch[k..], k, blockTime);
      StageGrounded(p, headers, [], cur, batch[k..], k, blockTime);
      var u := CommitStaged(staged.value);
      r := Ok(u);
    }

    /** undo_btc_relay_update and undo_ltc_relay_update. */
    method UndoUpdate(u: Update)
      modifies this
      ensures St() == Undo(old(St()), u)
    {
      for i := 0 to |u.headersAdded|
        invariant headers == old(headers) - (set h | h in u.headersAdded[..i])
        invariant heights == old(heights) - (set h | h in u.headersAdded[..i])
      {
        headers := headers - {u.headersAdded[i]};
        heights := heights - {u.headersAdded[i]};
        assert u.headersAdded[..i + 1] == u.headersAdded[..i] + [u.headersAdded[i]];
      }
      assert u.headersAdded[..|u.headersAdded|] == u.headersAdded;
      tip, tipHeight := u.tipBefore, u.tipHeightBefore;
    }
  }

  /** The retarget arithmetic of expected_bits_for_v. */
  method Retargeted(r: RetargetParams, parentBits: u32, parentTime: u32, firstTime: u32) returns (target: nat)
    requires r.expectedTimespan > 0 && r.minDivisor > 0
    ensures target == RetargetedTarget(r, Decode(parentBits), Timespan(r, parentTime, firstTime))
  {
    var timespan: nat := if parentTime < firstTime then 0 else parentTime - firstTime;
    var minTimespan := Quot(r.expectedTimespan, r.minDivisor);
    var maxTimespan := Min(Prod(r.expectedTimespan, r.maxMultiplier), U32_MAX);
    if timespan < minTimespan {
      timespan := minTimespan;
    }
    if timespan > maxTimespan {
      timespan := maxTimespan;
    }
    target := Quot(Prod(Decode(parentBits), timespan), r.expectedTimespan);
    var maxTarget := Decode(r.maxTargetBits);
    if target > maxTarget {
      target := maxTarget;
    }
  }

  method IsStaged(staged: seq<Staged>, hash: Hash) returns (found: bool)
    ensures found <==> FindLast(staged, hash).Some?
  {
    for i := 0 to |staged|
      invariant FindLast(staged[..i], hash).None?
    {
      assert staged[..i + 1][..i] == staged[..i];
      if staged[i].hash == hash {
        FindLastFinds(staged, i);
        return true;
      }
    }
    assert staged[..|staged|] == staged;
    return false;
  }

  lemma {:induction false} FindLastFinds(staged: seq<Staged>, i: nat)
    requires i < |staged|
    ensures FindLast(staged, staged[i].hash).Some?
  {
    if staged[|staged| - 1].hash != staged[i].hash {
      FindLastFinds(staged[..|staged| - 1], i);
    }
  }

  method FindPowFailure(p: Params, headers: seq<Header>) returns (i: nat)
    ensures i == FirstPowFailure(p, headers)
  {
    i := 0;
    while i < |headers| && p.MeetsPow(headers[i])
      invariant i <= |headers|
      invariant FirstPowFailure(p, headers) == i + FirstPowFailure(p, headers[i..])
    {
      assert headers[i..][1..] == headers[i + 1..];
      i := i + 1;
    }
  }
}
