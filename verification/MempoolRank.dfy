/** Eviction keeps the best: the pool always holds the top keys of everything offered to it. */
module MempoolRank {
  import opened MempoolModel

  // ---------- the keys in a pool ----------

  ghost function Pick(entries: Entries): (t: Txid)
    requires entries != map[]
    ensures t in entries
  {
    var t :| t in entries;
    t
  }

  ghost function KeysOf(entries: Entries): multiset<EvictionKey>
    decreases |entries|
  {
    if entries == map[] then multiset{} else
      var t := Pick(entries);
      Shrinks(entries, t);
      KeysOf(entries - {t}) + multiset{entries[t].Key()}
  }

  lemma Shrinks(entries: Entries, t: Txid)
    requires t in entries
    ensures |entries - {t}| == |entries| - 1
  {
    assert (entries - {t}).Keys == entries.Keys - {t};
  }

  lemma RemoveEither(entries: Entries, t: Txid, u: Txid)
    requires t in entries && u in entries && t != u
    ensures t in entries - {u} && (entries - {u})[t] == entries[t]
    ensures entries - {u} - {t} == entries - {t} - {u}
  {}

  /** Any entry can be taken out first. */
  lemma {:induction false} KeysWithout(entries: Entries, t: Txid)
    requires t in entries
    ensures KeysOf(entries) == KeysOf(entries - {t}) + multiset{entries[t].Key()}
    decreases |entries|
  {
    var u := Pick(entries);
    if u != t {
      KeysWithoutOther(entries, t, u);
    }
  }

  lemma {:induction false} KeysWithoutOther(entries: Entries, t: Txid, u: Txid)
    requires entries != map[] && t in entries && u == Pick(entries) && u != t
    ensures KeysOf(entries) == KeysOf(entries - {t}) + multiset{entries[t].Key()}
    decreases |entries|, 0
  {
    var rest := KeysOf(entries - {u});
    assert KeysOf(entries) == rest + multiset{entries[u].Key()};
    hide *;
    Shrinks(entries, u);
    Shrinks(entries, t);
    RemoveEither(entries, t, u);
    RemoveEither(entries, u, t);
    KeysWithout(entries - {u}, t);
    KeysWithout(entries - {t}, u);
  }

  lemma KeysWith(entries: Entries, t: Txid, e: Entry)
    requires t !in entries
    ensures KeysOf(entries[t := e]) == KeysOf(entries) + multiset{e.Key()}
  {
    KeysWithout(entries[t := e], t);
    assert entries[t := e] - {t} == entries;
  }

  lemma {:induction false} KeysSize(entries: Entries)
    ensures |KeysOf(entries)| == |entries|
    decreases |entries|
  {
    if entries != map[] {
      var t :| t in entries;
      KeysWithout(entries, t);
      Shrinks(entries, t);
      KeysSize(entries - {t});
    }
  }

  lemma {:induction false} KeyHasEntry(entries: Entries, k: EvictionKey)
    requires k in KeysOf(entries)
    ensures exists t :: t in entries && entries[t].Key() == k
    decreases |entries|
  {
    if entries != map[] {
      var t :| t in entries;
      KeysWithout(entries, t);
      Shrinks(entries, t);
      if entries[t].Key() != k { KeyHasEntry(entries - {t}, k); }
    }
  }

  // ---------- the best of a multiset ----------

  /** `best` is what is left of `all` when everything but the `cap` largest keys is dropped. */
  ghost predicate IsTop(best: multiset<EvictionKey>, all: multiset<EvictionKey>, cap: nat) {
    best <= all && |best| == (if |all| < cap then |all| else cap) &&
    forall x, y | x in best && y in all - best :: !x.Less(y)
  }

  predicate Ties(x: EvictionKey, y: EvictionKey) {
    !x.Less(y) && !y.Less(x)
  }

  lemma SameSize(a: multiset<EvictionKey>, b: multiset<EvictionKey>)
    requires a <= b && |a| == |b|
    ensures a == b
  {
    assert b == a + (b - a);
    assert |b - a| == 0;
  }

  lemma Crossed(a: multiset<EvictionKey>, b: multiset<EvictionKey>, all: multiset<EvictionKey>, cap: nat,
                x: EvictionKey, y: EvictionKey)
    requires IsTop(a, all, cap) && IsTop(b, all, cap) && a[x] > b[x] && b[y] > a[y]
    ensures Ties(x, y)
  {
    hide EvictionKey.Less;
    assert x in all - b && y in all - a;
  }

  /** The largest keys are determined by what was offered: two selections of the largest have the same
      size, and can differ only in which of several tied keys they hold. */
  lemma TopUnique(a: multiset<EvictionKey>, b: multiset<EvictionKey>, all: multiset<EvictionKey>, cap: nat)
    requires IsTop(a, all, cap) && IsTop(b, all, cap)
    ensures |a| == |b|
    ensures forall x, y | a[x] > b[x] && b[y] > a[y] :: Ties(x, y)
    ensures (forall x, y | x in all && y in all && Ties(x, y) :: x == y) ==> a == b
  {
    hide IsTop;
    assert a <= all && b <= all && |a| == |b| by { TopShape(a, all, cap); TopShape(b, all, cap); }
    forall x, y | a[x] > b[x] && b[y] > a[y]
      ensures Ties(x, y)
    {
      Crossed(a, b, all, cap, x, y);
    }
    if a != b && forall x, y | x in all && y in all && Ties(x, y) :: x == y {
      if a <= b { SameSize(a, b); }
      if b <= a { SameSize(b, a); }
      var x, y :| a[x] > b[x] && b[y] > a[y];
    }
  }

  lemma TopShape(a: multiset<EvictionKey>, all: multiset<EvictionKey>, cap: nat)
    requires IsTop(a, all, cap)
    ensures a <= all && |a| == if |all| < cap then |all| else cap
  {
    hide EvictionKey.Less;
  }

  lemma TopRoom(best: multiset<EvictionKey>, all: multiset<EvictionKey>, cap: nat, k: EvictionKey)
    requires IsTop(best, all, cap) && |best| < cap
    ensures IsTop(best + multiset{k}, all + multiset{k}, cap)
  {
    hide EvictionKey.Less;
    SameSize(best, all);
  }

  lemma TopReject(best: multiset<EvictionKey>, all: multiset<EvictionKey>, cap: nat, k: EvictionKey)
    requires IsTop(best, all, cap) && |best| == cap
    requires forall x | x in best :: !x.Less(k)
    ensures IsTop(best, all + multiset{k}, cap)
  {
    hide EvictionKey.Less;
    assert all + multiset{k} - best == (all - best) + multiset{k};
  }

  lemma TopReplace(best: multiset<EvictionKey>, all: multiset<EvictionKey>, cap: nat, v: EvictionKey, k: EvictionKey)
    requires IsTop(best, all, cap) && |best| == cap && v in best && v.Less(k)
    requires forall x | x in best :: !x.Less(v)
    ensures IsTop(best - multiset{v} + multiset{k}, all + multiset{k}, cap)
  {
    hide EvictionKey.Less;
    var best' := best - multiset{v} + multiset{k};
    assert all + multiset{k} - best' == (all - best) + multiset{v};
    forall x, y | x in best' && y in (all - best) + multiset{v}
      ensures !x.Less(y)
    {
      LessChains(v, k, y);
      LessChains(k, y, v);
      if x !in best { assert x == k; }
      if y in all - best { assert !v.Less(y); }
    }
  }

  // ---------- one admission ----------

  lemma LowestExists(entries: Entries)
    requires entries != map[]
    ensures exists t :: Lowest(entries, t)
    decreases |entries|
  {
    hide EvictionKey.Less;
    var t :| t in entries;
    var rest := entries - {t};
    Shrinks(entries, t);
    if rest == map[] {
      assert rest.Keys == entries.Keys - {t};
      LessChains(entries[t].Key(), entries[t].Key(), entries[t].Key());
      assert Lowest(entries, t);
    } else {
      LowestExists(rest);
      var u :| Lowest(rest, u);
      if entries[t].Key().Less(entries[u].Key()) {
        assert Lowest(entries, t) by {
          forall w | w in entries
            ensures !entries[w].Key().Less(entries[t].Key())
          {
            LessChains(entries[w].Key(), entries[t].Key(), entries[u].Key());
            LessChains(entries[t].Key(), entries[t].Key(), entries[t].Key());
            if w != t { assert w in rest; }
          }
        }
      } else {
        assert Lowest(entries, u) by {
          forall w | w in entries
            ensures !entries[w].Key().Less(entries[u].Key())
          {
            if w != t { assert w in rest; }
          }
        }
      }
    }
  }

  lemma AdmitsTop(cap: nat, entries: Entries, e: Entry, entries': Entries, r: AddResult, all: multiset<EvictionKey>)
    requires Admits(cap, entries, e, entries', r) && e.tx.txid !in entries
    requires IsTop(KeysOf(entries), all, cap)
    ensures IsTop(KeysOf(entries'), all + multiset{e.Key()}, cap)
  {
    hide KeysOf, EvictionKey.Less;
    var best, k, txid := KeysOf(entries), e.Key(), e.tx.txid;
    KeysSize(entries);
    forall x | x in best
      ensures exists t :: t in entries && entries[t].Key() == x
    {
      KeyHasEntry(entries, x);
    }
    if |entries| < cap {
      KeysWith(entries, txid, e);
      TopRoom(best, all, cap, k);
    } else if r.Ok? {
      var t := r.value.evicted.value;
      KeysWithout(entries, t);
      KeysWith(entries - {t}, txid, e);
      TopReplace(best, all, cap, entries[t].Key(), k);
      assert KeysOf(entries - {t}) == best - multiset{entries[t].Key()};
    } else {
      if entries != map[] {
        LowestExists(entries);
        var t :| Lowest(entries, t);
        forall x | x in best
          ensures !x.Less(k)
        {
          var u :| u in entries && entries[u].Key() == x;
          LessChains(x, entries[t].Key(), k);
        }
      }
      TopReject(best, all, cap, k);
    }
  }

  // ---------- whole runs of offers ----------

  /** Priority, fee and size of the first n offers that passed the duplicate, carrier, rate and fee gates. */
  ghost function Offers(run: Run, n: nat): multiset<EvictionKey>
    requires n <= |run.events|
  {
    if n == 0 then multiset{} else
      var e := run.events[n - 1];
      if e.Offered? && (e.result.Ok? || e.result.error == Full)
      then Offers(run, n - 1) + multiset{EvictionKey(e.offer.priority, e.offer.fee, e.offer.size)}
      else Offers(run, n - 1)
  }

  lemma AddsCases(cfg: Config, pool: Pool, o: Offer, pool': Pool, r: AddResult)
    requires Adds(cfg, pool, o, pool', r)
    ensures if r.Ok? || r.error == Full
            then o.tx.txid !in pool.entries && Admits(cfg.maxEntries, pool.entries, EntryOf(o), pool'.entries, r)
            else pool'.entries == pool.entries
  {
    hide Carries, FeePerByte, PaysBelow, PaysLess, Lowest, Gc, Limited;
  }

  /** From an empty pool, after any run of offers, the pool holds exactly the max_entries best of the
      offers that passed the gates, by priority and then by fee against size. */
  lemma {:induction false} PoolIsTop(cfg: Config, run: Run, n: nat)
    requires ValidRun(cfg, run) && run.pools[0].entries == map[] && n <= |run.events|
    requires forall i | 0 <= i < |run.events| :: run.events[i].Offered?
    ensures IsTop(KeysOf(run.pools[n].entries), Offers(run, n), cfg.maxEntries)
  {
    hide Adds, IsTop, Admits;
    if n == 0 {
      NothingOffered(cfg.maxEntries);
    } else {
      var e := run.events[n - 1];
      PoolIsTop(cfg, run, n - 1);
      assert Stepped(cfg, run.pools[n - 1], e, run.pools[n]);
      AddsCases(cfg, run.pools[n - 1], e.offer, run.pools[n], e.result);
      if e.result.Ok? || e.result.error == Full {
        AdmitsTop(cfg.maxEntries, run.pools[n - 1].entries, EntryOf(e.offer), run.pools[n].entries, e.result,
                  Offers(run, n - 1));
      }
    }
  }

  lemma NothingOffered(cap: nat)
    ensures IsTop(KeysOf(map[]), multiset{}, cap)
  {}

  // ---------- paying transactions ----------

  ghost function StandardIds(entries: Entries): set<Txid> {
    set t | t in entries && entries[t].priority.Standard?
  }

  /** An add never lowers the number of Standard entries: a zero-fee offer cannot displace one. */
  lemma StandardKept(cfg: Config, pool: Pool, o: Offer, pool': Pool, r: AddResult)
    requires Adds(cfg, pool, o, pool', r)
    ensures |StandardIds(pool.entries)| <= |StandardIds(pool'.entries)|
  {
    AddsCases(cfg, pool, o, pool', r);
    if r.Ok? {
      StandardAdmitted(cfg.maxEntries, pool.entries, EntryOf(o), pool'.entries, r);
    }
  }

  lemma StandardAdmitted(cap: nat, entries: Entries, e: Entry, entries': Entries, r: AddResult)
    requires Admits(cap, entries, e, entries', r) && r.Ok? && e.tx.txid !in entries
    ensures |StandardIds(entries)| <= |StandardIds(entries')|
  {
    if r.value.evicted.Some? && entries[r.value.evicted.value].priority.Standard? {
      SwapIds(entries, e, r.value.evicted.value);
    } else {
      KeepIds(entries, entries');
    }
  }

  lemma SwapIds(entries: Entries, e: Entry, t: Txid)
    requires t in entries && entries[t].priority.Standard? && e.priority.Standard? && e.tx.txid !in entries
    ensures |StandardIds((entries - {t})[e.tx.txid := e])| == |StandardIds(entries)|
  {
    assert StandardIds((entries - {t})[e.tx.txid := e]) == StandardIds(entries) - {t} + {e.tx.txid};
  }

  lemma KeepIds(entries: Entries, entries': Entries)
    requires forall t | t in entries && entries[t].priority.Standard? :: t in entries' && entries'[t] == entries[t]
    ensures |StandardIds(entries)| <= |StandardIds(entries')|
  {
    Subset(StandardIds(entries), StandardIds(entries'));
  }

  lemma {:induction false} Subset(a: set<Txid>, b: set<Txid>)
    requires a <= b
    ensures |a| <= |b|
    decreases a
  {
    if a != {} {
      var x :| x in a;
      Subset(a - {x}, b - {x});
    }
  }
}
