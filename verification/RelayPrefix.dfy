/** What the relay does with a batch that begins with headers it already has: it skips them, and
    refuses to go on from a stored header below the tip. */
module RelayPrefix {
  import opened Basics
  import opened RelayModel
  import opened RelayTree
  import opened RelayRuns
  import opened RelayBatch

  /** A linked run of headers, each stored in its place. */
  ghost predicate StoredRun(p: Params, m: Headers, prefix: seq<Header>) {
    prefix != [] && Known(p, m, prefix[0].prevHash) && KnownPrefix(p, m, Cur(p, m, prefix), prefix).0 == |prefix|
  }

  /** The cursor behind such a run. */
  ghost function Behind(p: Params, m: Headers, prefix: seq<Header>): Cursor
    requires StoredRun(p, m, prefix)
  {
    KnownPrefix(p, m, Cur(p, m, prefix), prefix).1
  }

  /** The suffix goes on where the stored run ends, with a header not stored there. */
  ghost predicate GoesOn(p: Params, m: Headers, prefix: seq<Header>, suffix: seq<Header>)
    requires StoredRun(p, m, prefix)
  {
    suffix != [] && suffix[0].prevHash == Behind(p, m, prefix).hash && !Stored(p, m, Behind(p, m, prefix), suffix[0])
  }

  // ---------- the stored part is skipped ----------

  lemma {:induction false} PrefixSkipped(p: Params, m: Headers, cur: Cursor, prefix: seq<Header>, suffix: seq<Header>)
    requires KnownPrefix(p, m, cur, prefix).0 == |prefix| && suffix != []
    requires !Stored(p, m, KnownPrefix(p, m, cur, prefix).1, suffix[0])
    ensures KnownPrefix(p, m, cur, prefix + suffix) == KnownPrefix(p, m, cur, prefix)
    decreases |prefix|
  {
    hide Stored;
    if prefix == [] {
      assert prefix + suffix == suffix;
    } else {
      assert (prefix + suffix)[0] == prefix[0] && (prefix + suffix)[1..] == prefix[1..] + suffix;
      assert Stored(p, m, cur, prefix[0]);
      var hash := p.blockHash(prefix[0]);
      assert hash in m by { StoredIn(p, m, cur, prefix[0]); }
      PrefixSkipped(p, m, Cursor(hash, cur.height + 1, m[hash].totalWork), prefix[1..], suffix);
    }
  }

  lemma StoredIn(p: Params, m: Headers, cur: Cursor, h: Header)
    requires Stored(p, m, cur, h)
    ensures p.blockHash(h) in m && m[p.blockHash(h)].header == h
  {}

  lemma {:induction false} StoredMeetPow(p: Params, m: Headers, cur: Cursor, prefix: seq<Header>)
    requires Tree(p, m) && KnownPrefix(p, m, cur, prefix).0 == |prefix|
    ensures AllMeetPow(p, prefix)
    decreases |prefix|
  {
    hide LinkOk, BitsReject, Mtp, GroundedAt;
    if prefix == [] {
    } else {
      var hash := p.blockHash(prefix[0]);
      assert RuleOk(p, m, hash);
      StoredMeetPow(p, m, Cursor(hash, cur.height + 1, m[hash].totalWork), prefix[1..]);
      forall i | 0 <= i < |prefix|
        ensures p.MeetsPow(prefix[i])
      {
        if i > 0 { assert prefix[i] == prefix[1..][i - 1]; }
      }
    }
  }

  lemma PrecheckSkips(p: Params, prefix: seq<Header>, suffix: seq<Header>)
    requires suffix != [] && AllMeetPow(p, prefix)
    requires p.kind.Ltc? ==> |prefix + suffix| <= MAX_LTC_BATCH
    ensures Precheck(p, prefix + suffix).None? <==> Precheck(p, suffix).None?
  {
    hide FirstPowFailure;
    var all := prefix + suffix;
    PowPrecheck(p, all);
    PowPrecheck(p, suffix);
    assert AllMeetPow(p, all) <==> AllMeetPow(p, suffix) by {
      if AllMeetPow(p, all) {
        forall i | 0 <= i < |suffix|
          ensures p.MeetsPow(suffix[i])
        {
          assert all[|prefix| + i] == suffix[i];
        }
      }
    }
  }

  /** The number a rejection is reported under does not decide it. */
  lemma {:induction false} StageRenumbered(p: Params, m: Headers, staged: seq<Staged>, cur: Cursor, headers: seq<Header>,
                                           i: nat, j: nat, blockTime: u32)
    requires p.Usable() && Grounded(p, InsertAll(m, staged)) && CursorOk(p, InsertAll(m, staged), cur)
    ensures var r, r' := Stage(p, m, staged, cur, headers, i, blockTime), Stage(p, m, staged, cur, headers, j, blockTime);
            (r.Ok? <==> r'.Ok?) && (r.Ok? ==> r == r')
    decreases |headers|
  {
    hide CheckHeader, GroundedAt;
    if headers == [] {
    } else if CheckHeader(p, m, InsertAll(m, staged), cur, headers[0], blockTime).None? {
      StageUnfold(p, m, staged, cur, headers, i, blockTime);
      StageUnfold(p, m, staged, cur, headers, j, blockTime);
      var staged' := staged + [Staged(p.blockHash(headers[0]), EntryFor(cur, headers[0]))];
      hide Stage;
      StageRenumbered(p, m, staged', Next(p, cur, headers[0]), headers[1..], i + 1, j + 1, blockTime);
    }
  }

  // ---------- the rule ----------

  lemma StartBehind(p: Params, m: Headers, prefix: seq<Header>)
    requires Tree(p, m) && StoredRun(p, m, prefix)
    ensures Start(p, m, Behind(p, m, prefix).hash) == Some(Behind(p, m, prefix))
  {
    hide RuleOk, LinkOk, KnownPrefix;
    PrefixCursor(p, m, Cur(p, m, prefix), prefix);
  }

  /** A batch of stored headers and new ones succeeds exactly when the new ones succeed alone and the
      stored ones end no lower than the tip; then both leave the same state and undo record. */
  lemma PrefixedBatch(p: Params, st: State, prefix: seq<Header>, suffix: seq<Header>, blockTime: u32)
    requires Sound(p, st) && StoredRun(p, st.headers, prefix) && GoesOn(p, st.headers, prefix, suffix)
    requires p.kind.Ltc? ==> |prefix + suffix| <= MAX_LTC_BATCH
    ensures var whole, alone := Apply(p, st, prefix + suffix, blockTime), Apply(p, st, suffix, blockTime);
            var cur := Behind(p, st.headers, prefix);
            (whole.Ok? <==> alone.Ok? && cur.height >= st.tipHeight) && (whole.Ok? ==> whole == alone) &&
            (alone.Ok? && cur.height < st.tipHeight ==> whole == Err(NonTipFork))
  {
    hide RuleOk, LinkOk, GroundedAt, MapsAgree, TipBest, TipStored, Precheck, KnownPrefix, Stage, Commit, Stored;
    var m, all, cur := st.headers, prefix + suffix, Behind(p, st.headers, prefix);
    assert all[0] == prefix[0] && all[|prefix|..] == suffix && suffix[0..] == suffix;
    StoredMeetPow(p, m, Cur(p, m, prefix), prefix);
    PrecheckSkips(p, prefix, suffix);
    PrefixSkipped(p, m, Cur(p, m, prefix), prefix, suffix);
    StartBehind(p, m, prefix);
    NotKnown(p, m, cur, suffix);
    StageRenumbered(p, m, [], cur, suffix, 0, |prefix|, blockTime);
  }

  lemma NotKnown(p: Params, m: Headers, cur: Cursor, headers: seq<Header>)
    requires headers != [] && !Stored(p, m, cur, headers[0])
    ensures KnownPrefix(p, m, cur, headers) == (0, cur)
  {
    hide Stored;
  }
}
