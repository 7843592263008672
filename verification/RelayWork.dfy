/** Which branch the relay follows: the one whose headers' work sums highest. */
module RelayWork {
  import opened Basics
  import opened CompactBits
  import opened RelayModel
  import opened RelayTree
  import opened RelayRuns

  /** The headers from just above the anchor up to h, in order. */
  ghost function Chain(p: Params, m: Headers, h: Hash): seq<Header>
    requires Linked(p, m) && Known(p, m, h)
    decreases HeightAt(p, m, h)
  {
    if h == p.anchor.hash then []
    else
      assert LinkOk(p, m, h);
      Chain(p, m, m[h].header.prevHash) + [m[h].header]
  }

  function SumWork(headers: seq<Header>): nat
    decreases |headers|
  {
    if headers == [] then 0 else SumWork(headers[..|headers| - 1]) + Work(headers[|headers| - 1].bits)
  }

  /** The hash a list of headers ends at. */
  function EndOf(p: Params, c: seq<Header>): Hash {
    if c == [] then p.anchor.hash else p.blockHash(c[|c| - 1])
  }

  /** A chain begins at the anchor, each header names the one before, and it ends at h. */
  lemma {:induction false} ChainLinked(p: Params, m: Headers, h: Hash)
    requires Linked(p, m) && Known(p, m, h)
    ensures var c := Chain(p, m, h);
            |c| + p.anchor.height == HeightAt(p, m, h) && EndOf(p, c) == h &&
            forall i | 0 <= i < |c| :: c[i].prevHash == EndOf(p, c[..i])
    decreases HeightAt(p, m, h)
  {
    hide Work, EndOf;
    if h == p.anchor.hash {
      EndOfEmpty(p);
    } else {
      assert LinkOk(p, m, h);
      var q := m[h].header.prevHash;
      ChainLinked(p, m, q);
      var c, before := Chain(p, m, h), Chain(p, m, q);
      EndOfMore(p, before, m[h].header);
      forall i | 0 <= i < |c|
        ensures c[i].prevHash == EndOf(p, c[..i])
      {
        assert c[..i] == before[..i];
        if i == |before| { assert before[..i] == before; }
      }
    }
  }

  lemma EndOfEmpty(p: Params)
    ensures EndOf(p, []) == p.anchor.hash
  {}

  lemma EndOfMore(p: Params, c: seq<Header>, h: Header)
    ensures EndOf(p, c + [h]) == p.blockHash(h)
  {}

  /** The work stored with a header is the anchor's plus the sum along its chain. */
  lemma {:induction false} TotalIsSum(p: Params, m: Headers, h: Hash)
    requires Linked(p, m) && Known(p, m, h)
    ensures WorkAt(p, m, h) == Work(p.anchor.bits) + SumWork(Chain(p, m, h))
    decreases HeightAt(p, m, h)
  {
    hide Work;
    if h != p.anchor.hash {
      assert LinkOk(p, m, h);
      TotalIsSum(p, m, m[h].header.prevHash);
      var c := Chain(p, m, h);
      assert c[..|c| - 1] == Chain(p, m, m[h].header.prevHash);
    }
  }

  /** The tip, or the anchor while there is none. */
  function Head(p: Params, st: State): Hash {
    if st.tip.None? then p.anchor.hash else st.tip.value
  }

  lemma HeadWork(p: Params, st: State)
    requires Sound(p, st)
    ensures Known(p, st.headers, Head(p, st)) && WorkAt(p, st.headers, Head(p, st)) == TipWork(p, st.headers, st.tip)
  {
    hide Work, LinkOk, RuleOk;
  }

  /** In every sound state no branch has a higher sum of work than the one the tip stands on. */
  lemma TipIsHeaviest(p: Params, st: State, h: Hash)
    requires Sound(p, st) && Known(p, st.headers, h)
    ensures Known(p, st.headers, Head(p, st))
    ensures SumWork(Chain(p, st.headers, h)) <= SumWork(Chain(p, st.headers, Head(p, st)))
  {
    hide Work, LinkOk, RuleOk, Chain, SumWork;
    HeadWork(p, st);
    TotalIsSum(p, st.headers, h);
    TotalIsSum(p, st.headers, Head(p, st));
  }

  /** A successful apply that adds headers moves the tip to its last header exactly when that
      header's branch has more work than the branch of the old tip; otherwise the tip stays. */
  lemma ApplyMovesTip(p: Params, st: State, headers: seq<Header>, blockTime: u32)
    requires Sound(p, st) && NoneIsAnchor(p, headers) && Apply(p, st, headers, blockTime).Ok?
    requires Apply(p, st, headers, blockTime).value.update.headersAdded != []
    ensures headers != []
    ensures var st', last := Apply(p, st, headers, blockTime).value.state, p.blockHash(headers[|headers| - 1]);
            Sound(p, st') && last in st'.headers && Known(p, st'.headers, Head(p, st)) &&
            if SumWork(Chain(p, st'.headers, last)) > SumWork(Chain(p, st'.headers, Head(p, st)))
            then st'.tip == Some(last) && st'.tipHeight == st'.headers[last].height
            else st'.tip == st.tip && st'.tipHeight == st.tipHeight
  {
    hide Work, LinkOk, RuleOk, Apply, Chain, SumWork, Stage, GroundedAt, MapsAgree, TipBest, InsertAll, InsertHeights, Entries;
    ApplySound(p, st, headers, blockTime);
    ApplyEffect(p, st, headers, blockTime);
    var a := Apply(p, st, headers, blockTime).value;
    var m, last := a.state.headers, p.blockHash(headers[|headers| - 1]);
    var e := EffectOf(p, st, headers);
    var es := Entries(p, e.cur, headers[e.from..]);
    InsertAllAt(st.headers, es);
    LastEntry(p, e.cur, headers[e.from..]);
    CommitHeaders(p, st, es);
    HeadWork(p, st);
    HeadStays(p, st, m);
    TotalIsSum(p, m, last);
    TotalIsSum(p, m, Head(p, st));
  }

  lemma {:induction false} LastEntry(p: Params, cur: Cursor, headers: seq<Header>)
    requires headers != []
    ensures Entries(p, cur, headers)[|headers| - 1].hash == p.blockHash(headers[|headers| - 1])
    decreases |headers|
  {
    hide Work;
    if |headers| > 1 { LastEntry(p, Next(p, cur, headers[0]), headers[1..]); }
  }

  lemma HeadStays(p: Params, st: State, m: Headers)
    requires Sound(p, st) && Submap(st.headers, m) && p.anchor.hash !in m
    ensures Known(p, m, Head(p, st)) && WorkAt(p, m, Head(p, st)) == TipWork(p, m, st.tip)
  {
    hide Work, LinkOk, RuleOk;
  }
}
