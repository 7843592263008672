/** The mempool as the node runs it, proved against MempoolModel. */
module Mempool {
  import opened Basics
  import opened MempoolModel

  /** Whether some output of a transaction parses as a header batch. */
  method IsCarrier(kind: RelayModel.Kind, tx: Tx) returns (carrier: bool)
    ensures carrier <==> Carries(kind, tx)
  {
    for i := 0 to |tx.scripts|
      invariant forall j, hs | 0 <= j < i :: !HeaderBatch.Parses(kind, tx.scripts[j], hs)
    {
      var parsed := HeaderBatch.Parse(kind, tx.scripts[i]);
      if parsed.Ok? {
        return true;
      }
    }
    return false;
  }

  lemma TwoKinds()
    ensures forall kind: RelayModel.Kind, entries: Entries, tx: Tx ::
              Blocks(kind, entries, tx) ==> kind == RelayModel.Btc || kind == RelayModel.Ltc
  {}

  /** The comparison of pick_eviction_target: priority rank, then the stored fee per byte. */
  method Below(e: Entry, e': Entry) returns (below: bool)
    requires Rated(e) && Rated(e')
    ensures below <==> e.Key().Less(e'.Key())
  {
    KeyOrder(e, e');
    var rank, rank' := e.priority.Rank(), e'.priority.Rank();
    below := rank < rank' || (rank == rank' && e.fpb < e'.fpb);
  }

  class MempoolManager {
    const cfg: Config
    var entries: Entries
    var lastSeen: map<Ip, Time>

    ghost function Contents(): Pool
      reads this
    {
      Pool(entries, lastSeen)
    }

    ghost predicate Valid()
      reads this
    {
      WellKeyed(entries) && forall t | t in entries :: Rated(entries[t])
    }

    constructor (cfg: Config)
      ensures this.cfg == cfg && Valid() && Contents() == Pool(map[], map[])
    {
      this.cfg := cfg;
      entries, lastSeen := map[], map[];
    }

    /** The scan for a pending batch of a chain that the new transaction also carries. The chain
        reported when both are pending depends on the order of the scan. */
    method FindPending(tx: Tx, hasBtc: bool, hasLtc: bool) returns (found: Option<RelayModel.Kind>)
      requires hasBtc == Carries(RelayModel.Btc, tx) && hasLtc == Carries(RelayModel.Ltc, tx)
      ensures found.Some? ==> Blocks(found.value, entries, tx)
      ensures found.None? ==> forall kind :: !Blocks(kind, entries, tx)
    {
      hide Carries;
      TwoKinds();
      if !hasBtc && !hasLtc {
        return None;
      }
      var todo := entries.Keys;
      while todo != {}
        invariant todo <= entries.Keys
        invariant forall t | t in entries && t !in todo ::
                    !(hasBtc && Carries(RelayModel.Btc, entries[t].tx)) &&
                    !(hasLtc && Carries(RelayModel.Ltc, entries[t].tx))
        decreases todo
      {
        var t :| t in todo;
        if hasBtc {
          var carrier := IsCarrier(RelayModel.Btc, entries[t].tx);
          if carrier {
            return Some(RelayModel.Btc);
          }
        }
        if hasLtc {
          var carrier := IsCarrier(RelayModel.Ltc, entries[t].tx);
          if carrier {
            return Some(RelayModel.Ltc);
          }
        }
        todo := todo - {t};
      }
      assert !Blocks(RelayModel.Btc, entries, tx) && !Blocks(RelayModel.Ltc, entries, tx);
      return None;
    }

    /** pick_eviction_target, which compares ranks and then the stored rates. */
    method PickEvictionTarget(e: Entry) returns (target: Option<Txid>)
      requires Valid() && Rated(e)
      ensures target.Some? ==> Lowest(entries, target.value) && entries[target.value].Key().Less(e.Key())
      ensures target.None? ==> forall t | Lowest(entries, t) :: !entries[t].Key().Less(e.Key())
    {
      hide EvictionKey.Less, Rated;
      if entries == map[] {
        return None;
      }
      var lowest :| lowest in entries;
      LessChains(entries[lowest].Key(), entries[lowest].Key(), entries[lowest].Key());
      var todo := entries.Keys - {lowest};
      while todo != {}
        invariant todo <= entries.Keys && lowest in entries
        invariant forall u | u in entries && u !in todo :: !entries[u].Key().Less(entries[lowest].Key())
        decreases todo
      {
        var t :| t in todo;
        var below := Below(entries[t], entries[lowest]);
        if below {
          forall u | u in entries && u !in todo
            ensures !entries[u].Key().Less(entries[t].Key())
          {
            LessChains(entries[u].Key(), entries[t].Key(), entries[lowest].Key());
          }
          LessChains(entries[t].Key(), entries[t].Key(), entries[t].Key());
          lowest := t;
        }
        todo := todo - {t};
      }
      var below := Below(entries[lowest], e);
      if below {
        return Some(lowest);
      }
      forall t | Lowest(entries, t)
        ensures !entries[t].Key().Less(e.Key())
      {
        LessChains(entries[t].Key(), entries[lowest].Key(), e.Key());
      }
      return None;
    }

    /** The rate check: collects garbage, then looks the source up. */
    method CheckRate(o: Offer) returns (ok: bool)
      modifies this
      ensures Contents() == Pool(old(entries), TableAt(old(Contents()), o))
      ensures ok <==> PassesRate(old(Contents()), o)
    {
      if o.priority.ZeroFeeAllowed? && o.source.Some? && !o.source.value.loopback {
        lastSeen := Gc(lastSeen, o.now);
        var ip := o.source.value.ip;
        if ip in lastSeen && TooSoon(lastSeen[ip], o.now) {
          return false;
        }
      }
      return true;
    }

    /** add_transaction_with_priority, with persistence assumed to succeed. */
    method AddTransaction(o: Offer) returns (r: AddResult)
      requires Valid()
      modifies this
      ensures Valid()
      ensures Adds(cfg, old(Contents()), o, Contents(), r)
    {
      hide Carries, Gc, PaysBelow, FeePerByte;
      var txid := o.tx.txid;
      if txid in entries {
        return Err(AlreadyInMempool);
      }
      var hasBtc := IsCarrier(RelayModel.Btc, o.tx);
      var hasLtc := IsCarrier(RelayModel.Ltc, o.tx);
      var pending := FindPending(o.tx, hasBtc, hasLtc);
      if pending.Some? {
        return Err(BatchPending(pending.value));
      }
      var ok := CheckRate(o);
      if !ok {
        return Err(RateLimited);
      }
      var fpb := FeePerByte(o.fee, o.size);
      RateBelow(o.fee, o.size, cfg.minFeePerByte);
      if o.priority.Standard? && fpb < cfg.minFeePerByte {
        return Err(FeePerByteTooLow);
      }
      if o.priority.Standard? && o.fee < cfg.minTotalFee {
        return Err(FeeTooLow);
      }
      r := Insert(EntryOf(o));
      if r.Ok? && RateChecked(o) {
        lastSeen := lastSeen[o.source.value.ip := o.later];
      }
    }

    /** The eviction and insertion at the end of an admission. */
    method Insert(e: Entry) returns (r: AddResult)
      requires Valid() && Rated(e) && e.tx.txid !in entries
      modifies this`entries
      ensures Valid()
      ensures Admits(cfg.maxEntries, old(entries), e, entries, r)
    {
      hide EvictionKey.Less, FeePerByte;
      var evicted: Option<Txid> := None;
      if |entries| >= cfg.maxEntries {
        evicted := PickEvictionTarget(e);
        if evicted.None? {
          return Err(Full);
        }
        entries := entries - {evicted.value};
      }
      entries := entries[e.tx.txid := e];
      r := Ok(AddOutcome(e.tx.txid, evicted));
    }

    method Remove(txid: Txid) returns (removed: bool)
      requires Valid()
      modifies this`entries
      ensures Valid() && entries == old(entries) - {txid}
      ensures removed <==> txid in old(entries)
    {
      removed := txid in entries;
      entries := entries - {txid};
    }

    /** find_conflicting: an entry that spends the outpoint, if there is one. */
    method FindConflicting(outpoint: OutPoint) returns (found: Option<Txid>)
      ensures found.Some? ==> found.value in entries && outpoint in entries[found.value].tx.inputs
      ensures found.None? ==> forall t | t in entries :: outpoint !in entries[t].tx.inputs
    {
      var todo := entries.Keys;
      while todo != {}
        invariant todo <= entries.Keys
        invariant forall t | t in entries && t !in todo :: outpoint !in entries[t].tx.inputs
        decreases todo
      {
        var t :| t in todo;
        for i := 0 to |entries[t].tx.inputs|
          invariant outpoint !in entries[t].tx.inputs[..i]
        {
          if entries[t].tx.inputs[i] == outpoint {
            return Some(t);
          }
        }
        todo := todo - {t};
      }
      return None;
    }

    /** evict_invalid_mempool_entries: what is left is exactly what still validates. */
    method EvictInvalid(validates: Tx -> bool) returns (evicted: nat)
      requires Valid()
      modifies this`entries
      ensures Valid()
      ensures entries == map t | t in old(entries) && validates(old(entries)[t].tx) :: old(entries)[t]
      ensures evicted == |old(entries)| - |entries|
    {
      hide Rated;
      var candidates := entries;
      var todo := candidates.Keys;
      evicted := 0;
      while todo != {}
        invariant Valid() && todo <= candidates.Keys && candidates == old(entries)
        invariant entries == map t | t in candidates && (t in todo || validates(candidates[t].tx)) :: candidates[t]
        invariant evicted == |candidates| - |entries|
        decreases todo
      {
        var t :| t in todo;
        assert t in entries && candidates[t].tx.txid == t;
        if !validates(candidates[t].tx) {
          assert (entries - {t}).Keys == entries.Keys - {t};
          var removed := Remove(candidates[t].tx.txid);
          if removed {
            evicted := evicted + 1;
          }
        }
        todo := todo - {t};
      }
    }
  }
}
