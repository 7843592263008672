/** Mempool admission of src/mempool.rs as a relation between pools, and what runs of it keep. */
module MempoolModel {
  import opened Basics
  import RelayModel
  import HeaderBatch

  type Txid = nat
  type Ip = nat

  /** Nanoseconds since the epoch. */
  type Time = nat

  const NANOS: nat := 1_000_000_000
  const INTERVAL_SECS: nat := 600

  datatype OutPoint = OutPoint(txid: Txid, index: u32)

  /** What admission reads of a transaction: its id, what it spends and its output scripts. */
  datatype Tx = Tx(txid: Txid, inputs: seq<OutPoint>, scripts: seq<seq<byte>>)

  datatype Priority = ZeroFeeAllowed | Standard {
    function Rank(): nat { if ZeroFeeAllowed? then 0 else 1 }
  }

  /** Whether a fee for a size pays less per byte than another, in whole numbers. An empty
      transaction pays nothing per byte. */
  predicate PaysLess(fee: nat, size: nat, fee': nat, size': nat) {
    size' > 0 && if size > 0 then fee * size' < fee' * size else fee' > 0
  }

  /** What eviction goes by: every ZeroFeeAllowed entry is below every Standard one, and entries of
      one priority compare by what they pay per byte. */
  datatype EvictionKey = EvictionKey(priority: Priority, fee: u64, size: nat) {
    predicate Less(k: EvictionKey) {
      if priority == k.priority then PaysLess(fee, size, k.fee, k.size) else priority.ZeroFeeAllowed?
    }
  }

  datatype Entry = Entry(tx: Tx, fee: u64, size: nat, fpb: real, added: nat, priority: Priority) {
    function Key(): EvictionKey { EvictionKey(priority, fee, size) }
  }

  type Entries = map<Txid, Entry>

  datatype Config = Config(maxEntries: nat, minFeePerByte: real, minTotalFee: u64)

  /** The pool: entries, and the last zero-fee admission of each source address. */
  datatype Pool = Pool(entries: Entries, lastSeen: map<Ip, Time>)

  /** One call of add_transaction_with_priority. `now` is the clock at the rate check and `later`
      the clock when the admission is recorded. A source is None for local callers. */
  datatype Offer = Offer(tx: Tx, size: nat, fee: u64, priority: Priority, source: Option<Source>, now: Time, later: Time)

  datatype Source = Source(ip: Ip, loopback: bool)

  datatype AddError =
    | AlreadyInMempool | BatchPending(kind: RelayModel.Kind) | RateLimited
    | FeePerByteTooLow | FeeTooLow | Full

  datatype AddOutcome = AddOutcome(txid: Txid, evicted: Option<Txid>)

  type AddResult = Result<AddOutcome, AddError>

  function FeePerByte(fee: u64, size: nat): real {
    if size > 0 then fee as real / size as real else 0.0
  }

  function EntryOf(o: Offer): Entry {
    Entry(o.tx, o.fee, o.size, FeePerByte(o.fee, o.size), o.later / NANOS, o.priority)
  }

  // ---------- what the stored rate means ----------

  lemma Scaled(x: real, y: real, c: real)
    requires c > 0.0
    ensures x < y <==> x * c < y * c
  {}

  lemma CrossMultiplied(fee: nat, size: nat, fee': nat, size': nat)
    requires size > 0 && size' > 0
    ensures fee as real / size as real < fee' as real / size' as real <==> fee * size' < fee' * size
  {
    var a, b, s, s' := fee as real / size as real, fee' as real / size' as real, size as real, size' as real;
    assert a * s == fee as real && b * s' == fee' as real;
    assert fee as real * s' == a * (s * s');
    assert fee' as real * s == b * (s * s');
    Scaled(a, b, s * s');
  }

  /** Stored rates compare as the fees and sizes do. */
  lemma RateOrder(fee: u64, size: nat, fee': u64, size': nat)
    ensures PaysLess(fee, size, fee', size') <==> FeePerByte(fee, size) < FeePerByte(fee', size')
  {
    if size > 0 && size' > 0 {
      CrossMultiplied(fee, size, fee', size');
    } else if size' > 0 && fee' > 0 {
      assert fee' as real / size' as real > 0.0;
    }
  }

  /** The stored rate is below a minimum exactly when the fee is below the minimum for that size. */
  lemma RateBelow(fee: u64, size: nat, rate: real)
    ensures PaysBelow(fee, size, rate) <==> FeePerByte(fee, size) < rate
  {
    if size > 0 {
      var a, s := fee as real / size as real, size as real;
      assert a * s == fee as real;
      Scaled(a, rate, s);
    }
  }

  predicate Rated(e: Entry) {
    e.fpb == FeePerByte(e.fee, e.size)
  }

  /** Comparing rank, then stored rate, is comparing what eviction goes by. */
  lemma KeyOrder(e: Entry, e': Entry)
    requires Rated(e) && Rated(e')
    ensures e.Key().Less(e'.Key()) <==>
            e.priority.Rank() < e'.priority.Rank() || (e.priority.Rank() == e'.priority.Rank() && e.fpb < e'.fpb)
  {
    hide FeePerByte, PaysLess;
    RateOrder(e.fee, e.size, e'.fee, e'.size);
  }

  /** Eviction keys are ranked: below is a strict order, and so is being no better. */
  lemma LessChains(x: EvictionKey, y: EvictionKey, z: EvictionKey)
    ensures x.Less(y) ==> !y.Less(x)
    ensures x.Less(y) && y.Less(z) ==> x.Less(z)
    ensures !x.Less(y) && !y.Less(z) ==> !x.Less(z)
  {
    hide FeePerByte, PaysLess;
    RateOrder(x.fee, x.size, y.fee, y.size);
    RateOrder(y.fee, y.size, x.fee, x.size);
    RateOrder(y.fee, y.size, z.fee, z.size);
    RateOrder(x.fee, x.size, z.fee, z.size);
  }

  // ---------- header carriers ----------

  ghost predicate Carries(kind: RelayModel.Kind, tx: Tx) {
    exists i, hs :: 0 <= i < |tx.scripts| && HeaderBatch.Parses(kind, tx.scripts[i], hs)
  }

  ghost predicate Pending(kind: RelayModel.Kind, entries: Entries) {
    exists t :: t in entries && Carries(kind, entries[t].tx)
  }

  /** The offer carries a batch of a chain that already has one pending. */
  ghost predicate Blocks(kind: RelayModel.Kind, entries: Entries, tx: Tx) {
    Carries(kind, tx) && Pending(kind, entries)
  }

  // ---------- the per-source rate table ----------

  predicate RateChecked(o: Offer) {
    o.priority.ZeroFeeAllowed? && o.source.Some? && !o.source.value.loopback
  }

  /** duration_since, in whole seconds, below the interval. A clock that ran backwards never limits. */
  predicate TooSoon(prev: Time, now: Time) {
    prev <= now && (now - prev) / NANOS < INTERVAL_SECS
  }

  /** gc_header_relay_rate_table. */
  function Gc(lastSeen: map<Ip, Time>, now: Time): map<Ip, Time> {
    map ip | ip in lastSeen && lastSeen[ip] <= now && now - lastSeen[ip] < INTERVAL_SECS * NANOS :: lastSeen[ip]
  }

  predicate Limited(lastSeen: map<Ip, Time>, ip: Ip, now: Time) {
    ip in lastSeen && TooSoon(lastSeen[ip], now)
  }

  // ---------- eviction ----------

  ghost predicate Lowest(entries: Entries, t: Txid) {
    t in entries && forall u | u in entries :: !entries[u].Key().Less(entries[t].Key())
  }

  /** Admission once the gates are passed. Which of several lowest entries goes is left open, as
      hash-map order leaves it open. */
  ghost predicate Admits(cap: nat, entries: Entries, e: Entry, entries': Entries, r: AddResult) {
    var txid := e.tx.txid;
    if |entries| < cap then
      r == Ok(AddOutcome(txid, None)) && entries' == entries[txid := e]
    else match r
      case Ok(outcome) =>
        outcome.txid == txid && outcome.evicted.Some? && Lowest(entries, outcome.evicted.value) &&
        entries[outcome.evicted.value].Key().Less(e.Key()) &&
        entries' == (entries - {outcome.evicted.value})[txid := e]
      case Err(error) =>
        error == Full && entries' == entries && forall t | t in entries && Lowest(entries, t) :: !entries[t].Key().Less(e.Key())
  }

  /** The table after the rate check, which collects garbage first. */
  function TableAt(pool: Pool, o: Offer): map<Ip, Time> {
    if RateChecked(o) then Gc(pool.lastSeen, o.now) else pool.lastSeen
  }

  ghost predicate PassesFirst(pool: Pool, o: Offer) {
    o.tx.txid !in pool.entries && forall kind :: !Blocks(kind, pool.entries, o.tx)
  }

  predicate PassesRate(pool: Pool, o: Offer) {
    RateChecked(o) ==> !Limited(TableAt(pool, o), o.source.value.ip, o.now)
  }

  /** The fee is below a rate per byte of the size; an empty transaction has rate zero. */
  predicate PaysBelow(fee: nat, size: nat, rate: real) {
    if size > 0 then fee as real < rate * size as real else 0.0 < rate
  }

  predicate PassesFees(cfg: Config, o: Offer) {
    o.priority.Standard? ==> !PaysBelow(o.fee, o.size, cfg.minFeePerByte) && o.fee >= cfg.minTotalFee
  }

  /** add_transaction_with_priority. */
  ghost predicate Adds(cfg: Config, pool: Pool, o: Offer, pool': Pool, r: AddResult) {
    if o.tx.txid in pool.entries then r == Err(AlreadyInMempool) && pool' == pool
    else if !PassesFirst(pool, o) then
      pool' == pool && r.Err? && r.error.BatchPending? && Blocks(r.error.kind, pool.entries, o.tx)
    else if !PassesRate(pool, o) then r == Err(RateLimited) && pool' == Pool(pool.entries, TableAt(pool, o))
    else if !PassesFees(cfg, o) then
      pool' == Pool(pool.entries, TableAt(pool, o)) &&
      r == Err(if PaysBelow(o.fee, o.size, cfg.minFeePerByte) then FeePerByteTooLow else FeeTooLow)
    else
      Admits(cfg.maxEntries, pool.entries, EntryOf(o), pool'.entries, r) &&
      pool'.lastSeen == if r.Ok? && RateChecked(o) then TableAt(pool, o)[o.source.value.ip := o.later]
                        else TableAt(pool, o)
  }

  // ---------- every entry under its own id, and the cap ----------

  ghost predicate WellKeyed(entries: Entries) {
    forall t | t in entries :: entries[t].tx.txid == t
  }

  lemma AddsWellKeyed(cfg: Config, pool: Pool, o: Offer, pool': Pool, r: AddResult)
    requires Adds(cfg, pool, o, pool', r) && WellKeyed(pool.entries)
    ensures WellKeyed(pool'.entries)
  {
    hide Carries, FeePerByte, PaysBelow, PaysLess;
  }

  /** The pool never grows past its cap. */
  lemma AddsCapped(cfg: Config, pool: Pool, o: Offer, pool': Pool, r: AddResult)
    requires Adds(cfg, pool, o, pool', r) && |pool.entries| <= cfg.maxEntries
    ensures |pool'.entries| <= cfg.maxEntries
  {
    hide Carries, FeePerByte, PaysBelow, PaysLess;
    if r.Ok? && r.value.evicted.Some? {
      var t := r.value.evicted.value;
      assert |pool.entries - {t}| == |pool.entries| - 1 by {
        assert (pool.entries - {t}).Keys == pool.entries.Keys - {t};
      }
      assert pool'.entries.Keys == (pool.entries - {t}).Keys + {o.tx.txid};
    }
  }

  // ---------- runs ----------

  /** A pool changes by an offer, by a removal, or by a sweep that drops what no longer validates. */
  datatype Event = Offered(offer: Offer, result: AddResult) | Dropped(txids: set<Txid>)

  /** The states a pool goes through: pools[i] before event i. */
  datatype Run = Run(events: seq<Event>, pools: seq<Pool>)

  ghost predicate Stepped(cfg: Config, pool: Pool, e: Event, pool': Pool) {
    match e
    case Offered(o, r) => Adds(cfg, pool, o, pool', r)
    case Dropped(txids) => pool' == Pool(pool.entries - txids, pool.lastSeen)
  }

  ghost predicate ValidRun(cfg: Config, run: Run) {
    |run.pools| == |run.events| + 1 &&
    forall i | 0 <= i < |run.events| :: Stepped(cfg, run.pools[i], run.events[i], run.pools[i + 1])
  }

  // ---------- at most one carrier per chain ----------

  ghost predicate OneCarrier(kind: RelayModel.Kind, entries: Entries) {
    forall t, u | t in entries && u in entries && Carries(kind, entries[t].tx) && Carries(kind, entries[u].tx) :: t == u
  }

  lemma StepOneCarrier(cfg: Config, pool: Pool, e: Event, pool': Pool, kind: RelayModel.Kind)
    requires Stepped(cfg, pool, e, pool') && OneCarrier(kind, pool.entries)
    ensures OneCarrier(kind, pool'.entries)
  {
    hide Carries, FeePerByte, PaysBelow, PaysLess, Lowest;
    if e.Offered? && e.result.Ok? {
      var o := e.offer;
      assert !Blocks(kind, pool.entries, o.tx);
      forall t, u | t in pool'.entries && u in pool'.entries &&
                    Carries(kind, pool'.entries[t].tx) && Carries(kind, pool'.entries[u].tx)
        ensures t == u
      {
        if t != o.tx.txid { assert t in pool.entries && pool'.entries[t] == pool.entries[t]; }
        if u != o.tx.txid { assert u in pool.entries && pool'.entries[u] == pool.entries[u]; }
      }
    }
  }

  /** On every run from a pool with at most one pending batch of a chain, there is never a second. */
  lemma {:induction false} RunOneCarrier(cfg: Config, run: Run, kind: RelayModel.Kind, n: nat)
    requires ValidRun(cfg, run) && n <= |run.events| && OneCarrier(kind, run.pools[0].entries)
    ensures OneCarrier(kind, run.pools[n].entries)
  {
    hide Stepped, OneCarrier;
    if n > 0 {
      RunOneCarrier(cfg, run, kind, n - 1);
      StepOneCarrier(cfg, run.pools[n - 1], run.events[n - 1], run.pools[n], kind);
    }
  }

  // ---------- where entries come from ----------

  /** The entry records the offer: its transaction, fee and size, the second it was recorded, and a
      rate that times the size gives the fee back. */
  ghost predicate Records(e: Entry, o: Offer) {
    e.tx == o.tx && e.fee == o.fee && e.size == o.size && e.priority == o.priority &&
    e.added * NANOS <= o.later < (e.added + 1) * NANOS &&
    (if o.size > 0 then e.fpb * o.size as real == o.fee as real else e.fpb == 0.0)
  }

  /** Event i admitted the offer that entry e records. */
  ghost predicate Admitted(run: Run, i: nat, e: Entry)
    requires i < |run.events|
  {
    run.events[i].Offered? && run.events[i].result.Ok? && Records(e, run.events[i].offer)
  }

  lemma EntryRecords(o: Offer)
    ensures Records(EntryOf(o), o)
  {}

  lemma StepEntries(cfg: Config, pool: Pool, e: Event, pool': Pool, t: Txid)
    requires Stepped(cfg, pool, e, pool') && t in pool'.entries
    ensures (t in pool.entries && pool'.entries[t] == pool.entries[t]) ||
            (e.Offered? && e.result.Ok? && t == e.offer.tx.txid && pool'.entries[t] == EntryOf(e.offer))
  {
    hide Carries, FeePerByte, PaysBelow, PaysLess, Lowest;
  }

  /** On every run from an empty pool, each entry records an offer that was admitted, under the id of
      its transaction. */
  lemma {:induction false} EntriesAreOffers(cfg: Config, run: Run, n: nat, t: Txid)
    requires ValidRun(cfg, run) && n <= |run.events| && run.pools[0].entries == map[] && t in run.pools[n].entries
    ensures exists i :: 0 <= i < n && Admitted(run, i, run.pools[n].entries[t]) && run.events[i].offer.tx.txid == t
  {
    hide Stepped, Records, EntryOf;
    assert n > 0;
    var e := run.events[n - 1];
    assert Stepped(cfg, run.pools[n - 1], e, run.pools[n]);
    StepEntries(cfg, run.pools[n - 1], e, run.pools[n], t);
    if t in run.pools[n - 1].entries && run.pools[n].entries[t] == run.pools[n - 1].entries[t] {
      EntriesAreOffers(cfg, run, n - 1, t);
    } else {
      EntryRecords(e.offer);
      assert Admitted(run, n - 1, run.pools[n].entries[t]);
    }
  }

  // ---------- the rate limit against the history ----------

  /** Event i admitted a zero-fee offer from the non-loopback address `ip`. */
  ghost predicate AdmittedFrom(run: Run, i: nat, ip: Ip)
    requires i < |run.events|
  {
    var e := run.events[i];
    e.Offered? && e.result.Ok? && e.offer.priority.ZeroFeeAllowed? && e.offer.source == Some(Source(ip, false))
  }

  /** The clock never runs backwards, within an offer or between two. */
  ghost predicate ClockMonotone(run: Run) {
    (forall i | 0 <= i < |run.events| && run.events[i].Offered? :: run.events[i].offer.now <= run.events[i].offer.later) &&
    (forall i, j | 0 <= i < j < |run.events| && run.events[i].Offered? && run.events[j].Offered? ::
       run.events[i].offer.later <= run.events[j].offer.now)
  }

  /** Some admission from ip among the first n events is less than the interval old at `now`. */
  ghost predicate Recent(run: Run, n: nat, ip: Ip, now: Time)
    requires n <= |run.events|
  {
    exists i :: 0 <= i < n && AdmittedFrom(run, i, ip) && TooSoon(run.events[i].offer.later, now)
  }

  /** From now on, the table limits an address exactly when the history does. */
  ghost predicate TableExact(run: Run, n: nat, lastSeen: map<Ip, Time>, now: Time)
    requires n <= |run.events|
  {
    forall ip, t | now <= t :: Limited(lastSeen, ip, t) <==> Recent(run, n, ip, t)
  }

  ghost predicate Past(lastSeen: map<Ip, Time>, now: Time) {
    forall ip | ip in lastSeen :: lastSeen[ip] <= now
  }

  lemma SecondsBelow(d: nat)
    ensures d < INTERVAL_SECS * NANOS <==> d / NANOS < INTERVAL_SECS
  {}

  /** Collecting garbage changes no decision at that instant or later. */
  lemma GcExact(lastSeen: map<Ip, Time>, now: Time, ip: Ip, t: Time)
    requires now <= t && Past(lastSeen, now)
    ensures Limited(Gc(lastSeen, now), ip, t) <==> Limited(lastSeen, ip, t)
  {
    if ip in lastSeen {
      SecondsBelow(now - lastSeen[ip]);
      SecondsBelow(t - lastSeen[ip]);
    }
  }

  lemma SoonerStays(prev: Time, prev': Time, t: Time)
    requires TooSoon(prev, t) && prev <= prev' <= t
    ensures TooSoon(prev', t)
  {
    SecondsBelow(t - prev);
    SecondsBelow(t - prev');
  }

  /** `now` is not before any of the first n offers. */
  ghost predicate AfterAll(run: Run, n: nat, now: Time)
    requires n <= |run.events|
  {
    forall i | 0 <= i < n && run.events[i].Offered? :: run.events[i].offer.later <= now
  }

  /** How one offer changes the table. */
  lemma AddsTable(cfg: Config, pool: Pool, o: Offer, pool': Pool, r: AddResult)
    requires Adds(cfg, pool, o, pool', r)
    ensures if r.Ok? && RateChecked(o)
            then pool'.lastSeen == Gc(pool.lastSeen, o.now)[o.source.value.ip := o.later]
            else pool'.lastSeen == pool.lastSeen || pool'.lastSeen == Gc(pool.lastSeen, o.now)
  {
    hide Carries, FeePerByte, PaysBelow, PaysLess, Admits, Gc, Limited;
  }

  lemma OfferTable(cfg: Config, run: Run, n: nat, ip: Ip, t: Time)
    requires ValidRun(cfg, run) && ClockMonotone(run) && n < |run.events| && run.events[n].Offered?
    requires TableExact(run, n, run.pools[n].lastSeen, run.events[n].offer.now)
    requires Past(run.pools[n].lastSeen, run.events[n].offer.now) && run.events[n].offer.later <= t
    ensures Limited(run.pools[n + 1].lastSeen, ip, t) <==> Recent(run, n + 1, ip, t)
  {
    hide Adds, Gc, TooSoon;
    var o, r := run.events[n].offer, run.events[n].result;
    var before, after := run.pools[n].lastSeen, run.pools[n + 1].lastSeen;
    assert Stepped(cfg, run.pools[n], run.events[n], run.pools[n + 1]);
    AddsTable(cfg, run.pools[n], o, run.pools[n + 1], r);
    GcExact(before, o.now, ip, t);
    assert Limited(before, ip, t) <==> Recent(run, n, ip, t);
    if AdmittedFrom(run, n, ip) {
      if Recent(run, n, ip, t) {
        var i :| 0 <= i < n && AdmittedFrom(run, i, ip) && TooSoon(run.events[i].offer.later, t);
        SoonerStays(run.events[i].offer.later, o.later, t);
      }
      assert TooSoon(o.later, t) ==> Recent(run, n + 1, ip, t);
    } else {
      assert Recent(run, n, ip, t) <==> Recent(run, n + 1, ip, t);
      assert r.Ok? && RateChecked(o) ==> o.source.value.ip != ip;
    }
  }

  lemma {:induction false} RateInvariant(cfg: Config, run: Run, n: nat, now: Time)
    requires ValidRun(cfg, run) && ClockMonotone(run) && run.pools[0].lastSeen == map[]
    requires n <= |run.events| && AfterAll(run, n, now)
    ensures TableExact(run, n, run.pools[n].lastSeen, now) && Past(run.pools[n].lastSeen, now)
  {
    hide Adds, TooSoon, Recent, Limited;
    if n == 0 {
      EmptyTable(run, now);
    } else if run.events[n - 1].Offered? {
      var o := run.events[n - 1].offer;
      RateInvariant(cfg, run, n - 1, o.now);
      forall ip, t | now <= t
        ensures Limited(run.pools[n].lastSeen, ip, t) <==> Recent(run, n, ip, t)
      {
        OfferTable(cfg, run, n - 1, ip, t);
      }
      assert Stepped(cfg, run.pools[n - 1], run.events[n - 1], run.pools[n]);
      AddsTable(cfg, run.pools[n - 1], o, run.pools[n], run.events[n - 1].result);
    } else {
      RateInvariant(cfg, run, n - 1, now);
      assert Stepped(cfg, run.pools[n - 1], run.events[n - 1], run.pools[n]);
      DropRecent(run, n - 1);
    }
  }

  lemma EmptyTable(run: Run, now: Time)
    ensures TableExact(run, 0, map[], now)
  {}

  lemma DropRecent(run: Run, n: nat)
    requires n < |run.events| && run.events[n].Dropped?
    ensures forall ip, t :: Recent(run, n, ip, t) <==> Recent(run, n + 1, ip, t)
  {
    hide TooSoon;
    forall ip, t
      ensures Recent(run, n, ip, t) <==> Recent(run, n + 1, ip, t)
    {
      if Recent(run, n, ip, t) {
        var i :| 0 <= i < n && AdmittedFrom(run, i, ip) && TooSoon(run.events[i].offer.later, t);
        assert Recent(run, n + 1, ip, t);
      }
    }
  }

  lemma RecentMeans(run: Run, n: nat, ip: Ip, now: Time)
    requires n <= |run.events| && AfterAll(run, n, now)
    ensures Recent(run, n, ip, now) <==>
            exists i :: 0 <= i < n && AdmittedFrom(run, i, ip) && now - run.events[i].offer.later < 600 * 1_000_000_000
  {
    hide TooSoon;
    forall i | 0 <= i < n && AdmittedFrom(run, i, ip)
      ensures TooSoon(run.events[i].offer.later, now) <==> now - run.events[i].offer.later < 600 * 1_000_000_000
    {
      TooSoonMeans(run.events[i].offer.later, now);
    }
  }

  lemma TooSoonMeans(prev: Time, now: Time)
    requires prev <= now
    ensures TooSoon(prev, now) <==> now - prev < 600 * 1_000_000_000
  {
    SecondsBelow(now - prev);
  }

  /** On every run with a monotone clock, an offer that reaches the rate check is turned away exactly
      when some earlier admission from its address is less than 600 seconds old. Collecting garbage
      from the table therefore never changes a decision. */
  lemma RateExact(cfg: Config, run: Run, n: nat)
    requires ValidRun(cfg, run) && ClockMonotone(run) && run.pools[0].lastSeen == map[]
    requires n < |run.events| && run.events[n].Offered? && run.events[n].offer.priority.ZeroFeeAllowed?
    requires run.events[n].offer.source.Some? && !run.events[n].offer.source.value.loopback
    ensures var o := run.events[n].offer;
            PassesRate(run.pools[n], o) <==>
            !exists i :: 0 <= i < n && AdmittedFrom(run, i, o.source.value.ip) &&
                         o.now - run.events[i].offer.later < 600 * 1_000_000_000
  {
    hide Adds, TooSoon, Recent, Gc;
    var o := run.events[n].offer;
    RateInvariant(cfg, run, n, o.now);
    GcExact(run.pools[n].lastSeen, o.now, o.source.value.ip, o.now);
    RecentMeans(run, n, o.source.value.ip, o.now);
  }

  /** A paying offer, a local one and one from a loopback address are never limited, and leave the rate
      table alone. */
  lemma NeverLimited(cfg: Config, pool: Pool, o: Offer, pool': Pool, r: AddResult)
    requires Adds(cfg, pool, o, pool', r)
    requires o.priority.Standard? || o.source.None? || o.source.value.loopback
    ensures r != Err(RateLimited) && pool'.lastSeen == pool.lastSeen
  {
    hide Carries, FeePerByte, PaysBelow, PaysLess, Lowest;
  }

  /** Two zero-fee admissions from one non-loopback address are at least 600 seconds apart. */
  lemma AdmissionsSpaced(cfg: Config, run: Run, i: nat, j: nat, ip: Ip)
    requires ValidRun(cfg, run) && ClockMonotone(run) && run.pools[0].lastSeen == map[]
    requires i < j < |run.events| && AdmittedFrom(run, i, ip) && AdmittedFrom(run, j, ip)
    ensures run.events[j].offer.now - run.events[i].offer.later >= 600 * 1_000_000_000
  {
    hide Adds;
    var o := run.events[j].offer;
    RateExact(cfg, run, j);
    assert Stepped(cfg, run.pools[j], run.events[j], run.pools[j + 1]);
    OkPassesRate(cfg, run.pools[j], o, run.pools[j + 1], run.events[j].result);
  }

  lemma OkPassesRate(cfg: Config, pool: Pool, o: Offer, pool': Pool, r: AddResult)
    requires Adds(cfg, pool, o, pool', r) && r.Ok?
    ensures PassesFirst(pool, o) && PassesRate(pool, o) && PassesFees(cfg, o)
    ensures Admits(cfg.maxEntries, pool.entries, EntryOf(o), pool'.entries, r)
  {
    hide Carries, FeePerByte, PaysBelow, PaysLess, Admits, Gc, Limited;
  }
}
