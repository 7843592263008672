/** The per-source admission limiter of src/poawx_admission.rs. Times are nanoseconds of one
    monotone clock. */
module AdmissionLimiter {
  import opened Basics

  type Source = string

  const NANOS: nat := 1_000_000_000
  const TABLE_LIMIT: nat := 8192
  const STRIKE_LIMIT: nat := 3

  /** The three settings, already clamped. */
  datatype Params = Params(windowSecs: nat, max: nat, cooldownSecs: nat)

  predicate Clamped(p: Params) {
    1 <= p.windowSecs <= 3600 && 4 <= p.max <= 1_000_000 && p.cooldownSecs <= 86400
  }

  function Window(p: Params): nat { p.windowSecs * NANOS }

  function Cooldown(p: Params): nat { p.cooldownSecs * NANOS }

  datatype Rate = Rate(start: nat, count: u32, strikes: u32, until: Option<nat>)

  type Table = map<Source, Rate>

  function SaturatingInc(n: u32): u32 {
    if n == U32_MAX then n else n + 1
  }

  /** Time since an earlier instant, zero if it is not earlier. */
  function Since(now: nat, earlier: nat): nat {
    if now < earlier then 0 else now - earlier
  }

  predicate Kept(p: Params, r: Rate, now: nat) {
    (r.until.Some? && r.until.value > now) || Since(now, r.start) < Window(p)
  }

  function Pruned(p: Params, t: Table, now: nat): Table {
    if |t| > TABLE_LIMIT then map s | s in t && Kept(p, t[s], now) :: t[s] else t
  }

  function Fresh(now: nat): Rate {
    Rate(now, 0, 0, None)
  }

  /** A window that has run out is restarted; strikes are forgiven if it was within the limit. */
  function Rolled(p: Params, r: Rate, now: nat): Rate {
    if Since(now, r.start) >= Window(p)
    then r.(start := now, count := 0, strikes := if r.count <= p.max then 0 else r.strikes)
    else r
  }

  /** The entry a request is counted in. */
  function Opened(p: Params, r: Rate, now: nat): Rate {
    Rolled(p, if r.until.Some? then Fresh(now) else r, now)
  }

  /** Counting the request in an open entry. */
  function TouchOpen(p: Params, r: Rate, now: nat): (Rate, bool) {
    var counted := r.(count := SaturatingInc(r.count));
    if counted.count <= p.max then (counted, true)
    else
      var struck := counted.(strikes := SaturatingInc(counted.strikes));
      if struck.strikes >= STRIKE_LIMIT && p.cooldownSecs > 0
      then (struck.(until := Some(now + Cooldown(p))), false)
      else (struck, false)
  }

  /** One request against the entry of its source; in a cooldown it changes nothing. */
  function Touch(p: Params, r: Rate, now: nat): (Rate, bool) {
    if r.until.Some? && r.until.value > now then (r, false)
    else TouchOpen(p, Opened(p, r, now), now)
  }

  function EntryFor(p: Params, t: Table, src: Source, now: nat): Rate {
    var pruned := Pruned(p, t, now);
    if src in pruned then pruned[src] else Fresh(now)
  }

  function Step(p: Params, t: Table, src: Source, now: nat): (Table, bool) {
    var touched := Touch(p, EntryFor(p, t, src, now), now);
    (Pruned(p, t, now)[src := touched.0], touched.1)
  }

  class Limiter {
    const params: Params
    var table: Table

    constructor (params: Params)
      ensures this.params == params && table == map[]
    {
      this.params := params;
      table := map[];
    }

    /** admission_rate_allowed, with the clock as a parameter. */
    method Allowed(src: Source, now: nat) returns (ok: bool)
      modifies this
      ensures (table, ok) == Step(params, old(table), src, now)
    {
      if |table| > TABLE_LIMIT {
        table := map s | s in table && Kept(params, table[s], now) :: table[s];
      }
      var e := if src in table then table[src] else Fresh(now);
      if e.until.Some? {
        if e.until.value > now {
          table := table[src := e];
          return false;
        }
        e := e.(until := None, start := now, count := 0, strikes := 0);
      }
      if Since(now, e.start) >= Window(params) {
        if e.count <= params.max {
          e := e.(strikes := 0);
        }
        e := e.(start := now, count := 0);
      }
      e := e.(count := SaturatingInc(e.count));
      if e.count > params.max {
        e := e.(strikes := SaturatingInc(e.strikes));
        if e.strikes >= STRIKE_LIMIT && params.cooldownSecs > 0 {
          e := e.(until := Some(now + Cooldown(params)));
        }
        table := table[src := e];
        return false;
      }
      table := table[src := e];
      return true;
    }
  }

  // ---------- runs ----------

  datatype Request = Request(src: Source, now: nat)

  function Run(p: Params, rs: seq<Request>): Table
    decreases |rs|
  {
    if rs == [] then map[]
    else
      var last := rs[|rs| - 1];
      Step(p, Run(p, rs[..|rs| - 1]), last.src, last.now).0
  }

  /** The times at which requests of one source were let through. */
  function Granted(p: Params, rs: seq<Request>, src: Source): seq<nat>
    decreases |rs|
  {
    if rs == [] then []
    else
      var last, before := rs[|rs| - 1], rs[..|rs| - 1];
      if last.src == src && Step(p, Run(p, before), src, last.now).1
      then Granted(p, before, src) + [last.now]
      else Granted(p, before, src)
  }

  /** The requests arrive in clock order. */
  predicate Clocked(rs: seq<Request>) {
    forall i, j | 0 <= i < j < |rs| :: rs[i].now <= rs[j].now
  }

  /** No n + 1 of these times lie within less than w. */
  predicate Spaced(times: seq<nat>, n: nat, w: nat) {
    forall i | 0 <= i && i + n < |times| :: times[i] + w <= times[i + n]
  }

  // ---------- less than twice the limit per window ----------

  ghost predicate NoneAfter(times: seq<nat>, k: int, t: nat) {
    forall i | 0 <= i < |times| && i < k :: times[i] <= t
  }

  ghost predicate AgedBefore(p: Params, times: seq<nat>, k: int, t: nat) {
    forall i | 0 <= i < |times| && i < k :: times[i] + Window(p) <= t
  }

  /** The most a source gets through in less than a window: every window's first grant stands at
      its start, so two windows in a row cannot both be used in full. */
  function Most(p: Params): nat
    requires p.max > 0
  {
    2 * p.max - 1
  }

  /** What a table entry, or its absence, says about the requests let through so far. */
  ghost predicate Accounts(p: Params, times: seq<nat>, t: Table, src: Source, clock: nat)
    requires p.max > 0
  {
    Spaced(times, Most(p), Window(p)) && NoneAfter(times, |times|, clock) &&
    if src in t then EntryAccounts(p, times, t[src], clock) && t[src].count > 0
    else AgedBefore(p, times, |times| - p.max + 1, clock)
  }

  function InWindow(p: Params, r: Rate): nat {
    if r.count <= p.max then r.count else p.max
  }

  /** The grants of the open window are the last ones; the first of them stands at its start. */
  ghost predicate EntryAccounts(p: Params, times: seq<nat>, r: Rate, clock: nat) {
    r.start <= clock &&
    InWindow(p, r) <= |times| &&
    NoneAfter(times, |times| - InWindow(p, r) + 1, r.start) &&
    AgedBefore(p, times, |times| - InWindow(p, r) - p.max + 1, r.start) &&
    (r.count == 0 ==> r.start == clock && r.until.None?) &&
    (r.until.Some? ==> p.cooldownSecs > 0 && r.start + Cooldown(p) <= r.until.value)
  }

  predicate Settled(p: Params) {
    p.cooldownSecs == 0 || p.cooldownSecs >= p.windowSecs
  }

  lemma CooldownCovers(p: Params)
    requires Settled(p) && p.cooldownSecs > 0
    ensures Window(p) <= Cooldown(p)
  {}

  /** A window started late enough after the last one keeps the account. */
  lemma Restarts(p: Params, times: seq<nat>, r: Rate, clock: nat, now: nat, strikes: u32)
    requires EntryAccounts(p, times, r, clock) && NoneAfter(times, |times|, now)
    requires r.start + Window(p) <= now && clock <= now
    ensures EntryAccounts(p, times, Rate(now, 0, strikes, None), now)
  {}

  lemma OpenedAccounts(p: Params, times: seq<nat>, r: Rate, now: nat)
    requires Clamped(p) && Settled(p) && EntryAccounts(p, times, r, now) && NoneAfter(times, |times|, now)
    requires r.until.Some? ==> r.until.value <= now
    ensures EntryAccounts(p, times, Opened(p, r, now), now) && Opened(p, r, now).until.None?
  {
    hide NoneAfter, AgedBefore, Window, Cooldown;
    if r.until.Some? {
      CooldownCovers(p);
      Restarts(p, times, r, now, now, 0);
      WindowPositive(p);
    } else if Since(now, r.start) >= Window(p) {
      Restarts(p, times, r, now, now, if r.count <= p.max then 0 else r.strikes);
    }
  }

  lemma WindowPositive(p: Params)
    requires Clamped(p)
    ensures Window(p) > 0
  {}

  lemma GrantAccounts(p: Params, times: seq<nat>, r: Rate, now: nat)
    requires Clamped(p) && EntryAccounts(p, times, r, now) && r.count < p.max
    requires Spaced(times, Most(p), Window(p)) && NoneAfter(times, |times|, now)
    ensures EntryAccounts(p, times + [now], r.(count := r.count + 1), now)
    ensures Spaced(times + [now], Most(p), Window(p)) && NoneAfter(times + [now], |times| + 1, now)
  {
    hide Window, Cooldown;
    var all := times + [now];
    forall i | 0 <= i && i + Most(p) < |all|
      ensures all[i] + Window(p) <= all[i + Most(p)]
    {
      if i + Most(p) == |times| { assert i < |times| - r.count - p.max + 1; }
    }
  }

  ghost predicate StateAccounts(p: Params, times: seq<nat>, r: Rate, clock: nat)
    requires p.max > 0
  {
    Spaced(times, Most(p), Window(p)) && NoneAfter(times, |times|, clock) && EntryAccounts(p, times, r, clock)
  }

  lemma TouchAccounts(p: Params, times: seq<nat>, r: Rate, now: nat)
    requires Clamped(p) && Settled(p) && StateAccounts(p, times, r, now)
    ensures var touched := Touch(p, r, now);
            touched.0.count > 0 && StateAccounts(p, if touched.1 then times + [now] else times, touched.0, now)
  {
    hide AgedBefore, NoneAfter, Window, Cooldown, Spaced, Opened;
    if r.until.Some? && r.until.value > now {
    } else {
      var open := Opened(p, r, now);
      OpenedAccounts(p, times, r, now);
      if open.count < p.max {
        GrantAccounts(p, times, open, now);
      } else {
        RejectAccounts(p, times, open, now);
      }
    }
  }

  lemma RejectAccounts(p: Params, times: seq<nat>, r: Rate, now: nat)
    requires Clamped(p) && EntryAccounts(p, times, r, now) && r.count >= p.max && r.until.None?
    ensures EntryAccounts(p, times, TouchOpen(p, r, now).0, now) && !TouchOpen(p, r, now).1
  {
    hide AgedBefore, NoneAfter, Window, Cooldown;
  }

  // ---------- every run ----------

  lemma EntryForAccounts(p: Params, times: seq<nat>, t: Table, src: Source, clock: nat, now: nat)
    requires Clamped(p) && Accounts(p, times, t, src, clock) && clock <= now
    ensures StateAccounts(p, times, EntryFor(p, t, src, now), now)
  {
    hide Window, Cooldown, Spaced;
    if src in t && src !in Pruned(p, t, now) {
      assert !Kept(p, t[src], now);
      Restarts(p, times, t[src], clock, now, 0);
    }
  }

  lemma OtherAccounts(p: Params, times: seq<nat>, t: Table, src: Source, other: Source, clock: nat, now: nat)
    requires Clamped(p) && Accounts(p, times, t, src, clock) && clock <= now && src != other
    ensures Accounts(p, times, Step(p, t, other, now).0, src, now)
  {
    hide Window, Cooldown, Spaced, Touch, EntryFor;
    if src in t && src !in Pruned(p, t, now) {
      assert !Kept(p, t[src], now);
      Restarts(p, times, t[src], clock, now, 0);
    }
  }

  function Clock(rs: seq<Request>): nat {
    if rs == [] then 0 else rs[|rs| - 1].now
  }

  lemma {:induction false} RunAccounts(p: Params, rs: seq<Request>, src: Source)
    requires Clamped(p) && Settled(p) && Clocked(rs)
    ensures Accounts(p, Granted(p, rs, src), Run(p, rs), src, Clock(rs))
    decreases |rs|
  {
    if rs == [] {
    } else {
      var before, last := rs[..|rs| - 1], rs[|rs| - 1];
      var t, times := Run(p, before), Granted(p, before, src);
      RunAccounts(p, before, src);
      assert Clock(before) <= last.now;
      hide Window, Cooldown, Spaced, Touch, EntryFor, Pruned, EntryAccounts, AgedBefore, NoneAfter;
      if last.src == src {
        EntryForAccounts(p, times, t, src, Clock(before), last.now);
        TouchAccounts(p, times, EntryFor(p, t, src, last.now), last.now);
      } else {
        hide Accounts;
        OtherAccounts(p, times, t, src, last.src, Clock(before), last.now);
      }
    }
  }

  /** If the cooldown is off or no shorter than the window, every source gets less than twice the
      limit through in less than one window, in any run, pruning included. */
  lemma UnderTwiceTheLimit(p: Params, rs: seq<Request>, src: Source)
    requires Clamped(p) && Settled(p) && Clocked(rs)
    ensures Spaced(Granted(p, rs, src), 2 * p.max - 1, Window(p))
  {
    hide Granted, Run, Spaced;
    RunAccounts(p, rs, src);
  }
}
