/** How much the admission limiter lets through per window, exactly, and which sources it never
    drops. */
module AdmissionExact {
  import opened Basics
  import opened AdmissionLimiter

  // ---------- bursts of one source ----------

  function Repeat(src: Source, now: nat, n: nat): (rs: seq<Request>)
    ensures |rs| == n && forall i | 0 <= i < n :: rs[i] == Request(src, now)
  {
    seq(n, i => Request(src, now))
  }

  function Times(now: nat, n: nat): (ts: seq<nat>)
    ensures |ts| == n && forall i | 0 <= i < n :: ts[i] == now
  {
    seq<nat>(n, i => now)
  }

  /** A run of one source: its entry and what it got through. */
  ghost predicate Alone(p: Params, rs: seq<Request>, src: Source, r: Rate, times: seq<nat>) {
    Clocked(rs) && Run(p, rs) == map[src := r] && Granted(p, rs, src) == times
  }

  lemma AloneSteps(p: Params, src: Source, r: Rate, now: nat)
    ensures Step(p, map[src := r], src, now) == (map[src := Touch(p, r, now).0], Touch(p, r, now).1)
  {
    hide Touch;
    var t: Table := map[src := r];
    assert t.Keys == {src};
    assert |t| == |t.Keys|;
    assert t[src := Touch(p, r, now).0] == map[src := Touch(p, r, now).0];
  }

  lemma ClockedMore(rs: seq<Request>, more: Request)
    requires Clocked(rs) && Clock(rs) <= more.now
    ensures Clocked(rs + [more])
  {}

  lemma OneMore(p: Params, rs: seq<Request>, src: Source, r: Rate, times: seq<nat>, now: nat)
    requires Alone(p, rs, src, r, times) && Clock(rs) <= now
    ensures var touched := Touch(p, r, now);
            Alone(p, rs + [Request(src, now)], src, touched.0, if touched.1 then times + [now] else times) &&
            Clock(rs + [Request(src, now)]) == now
  {
    ClockedMore(rs, Request(src, now));
    hide Touch, Step, Clocked;
    var all := rs + [Request(src, now)];
    assert all[..|all| - 1] == rs;
    AloneSteps(p, src, r, now);
  }

  /** Requests within the window and the limit are all let through. */
  lemma {:induction false} Burst(p: Params, rs: seq<Request>, src: Source, r: Rate, times: seq<nat>, now: nat, n: nat)
    requires Alone(p, rs, src, r, times) && Clock(rs) <= now && Clamped(p)
    requires r.until.None? && Since(now, r.start) < Window(p) && r.count + n <= p.max
    ensures Alone(p, rs + Repeat(src, now, n), src, r.(count := r.count + n), times + Times(now, n))
    ensures Clock(rs + Repeat(src, now, n)) <= now
    decreases n
  {
    hide Alone, Window;
    if n == 0 {
      assert rs + Repeat(src, now, 0) == rs && times + Times(now, 0) == times;
    } else {
      Burst(p, rs, src, r, times, now, n - 1);
      OneMore(p, rs + Repeat(src, now, n - 1), src, r.(count := r.count + n - 1), times + Times(now, n - 1), now);
      assert rs + Repeat(src, now, n) == rs + Repeat(src, now, n - 1) + [Request(src, now)];
      assert times + Times(now, n) == times + Times(now, n - 1) + [now];
    }
  }

  // ---------- two windows back to back ----------

  /** What gets through in the first window: one request at its start, the rest at its very end. */
  function Early(p: Params): seq<nat>
    requires Clamped(p)
  {
    WindowPositive(p);
    [0] + Times(Window(p) - 1, p.max - 1)
  }

  /** And a full burst at the start of the second. */
  function Bursts(p: Params): seq<nat>
    requires Clamped(p)
  {
    Early(p) + Times(Window(p), p.max)
  }

  /** From the end of the first window on, the grants lie closer together than a window. */
  lemma BurstsCrowd(p: Params, more: seq<nat>)
    requires Clamped(p) && forall t | t in more :: t < 2 * Window(p) - 1
    ensures forall n | 0 <= n < 2 * p.max + |more| - 1 :: !Spaced(Bursts(p) + more, n, Window(p))
  {
    assert Window(p) > 1;
    var all := Bursts(p) + more;
    forall n | 0 <= n < 2 * p.max + |more| - 1
      ensures !Spaced(all, n, Window(p))
    {
      hide Window;
      assert 1 + n >= 2 * p.max ==> all[1 + n] in more;
      assert all[1] == Window(p) - 1 && all[1 + n] < 2 * Window(p) - 1;
    }
  }

  lemma FirstRequest(p: Params, src: Source)
    requires Clamped(p)
    ensures Alone(p, [Request(src, 0)], src, Rate(0, 1, 0, None), [0])
  {
    var rs := [Request(src, 0)];
    assert rs[..0] == [];
    var t: Table := map[];
    assert EntryFor(p, t, src, 0) == Fresh(0) && Pruned(p, t, 0) == t;
    assert Step(p, t, src, 0) == (t[src := Rate(0, 1, 0, None)], true) by { WindowPositive(p); }
    assert Run(p, []) == t && Granted(p, [], src) == [];
    hide Step;
    assert Run(p, rs) == Step(p, Run(p, rs[..0]), src, 0).0;
  }

  lemma FirstWindow(p: Params, src: Source) returns (rs: seq<Request>)
    requires Clamped(p)
    ensures Alone(p, rs, src, Rate(0, p.max, 0, None), Early(p))
    ensures Clock(rs) <= Window(p)
  {
    hide Alone, Window, Early, Clock, Times, Repeat;
    WindowPositive(p);
    EarlyIs(p);
    FirstRequest(p, src);
    FirstClock(src);
    FillWindow(p, src, Window(p) - 1);
    rs := [Request(src, 0)] + Repeat(src, Window(p) - 1, p.max - 1);
  }

  lemma FillWindow(p: Params, src: Source, now: nat)
    requires Clamped(p) && now < Window(p) && Clock([Request(src, 0)]) == 0
    requires Alone(p, [Request(src, 0)], src, Rate(0, 1, 0, None), [0])
    ensures var rs := [Request(src, 0)] + Repeat(src, now, p.max - 1);
            Alone(p, rs, src, Rate(0, p.max, 0, None), [0] + Times(now, p.max - 1)) && Clock(rs) <= now
  {
    hide Alone, Window, Clock, Times, Repeat;
    Burst(p, [Request(src, 0)], src, Rate(0, 1, 0, None), [0], now, p.max - 1);
  }

  lemma EarlyIs(p: Params)
    requires Clamped(p)
    ensures Window(p) > 0 && Early(p) == [0] + Times(Window(p) - 1, p.max - 1)
  {
    WindowPositive(p);
  }

  lemma FirstClock(src: Source)
    ensures Clock([Request(src, 0)]) == 0
  {}

  lemma SecondWindow(p: Params, src: Source) returns (rs: seq<Request>)
    requires Clamped(p)
    ensures var w := Window(p);
            Alone(p, rs, src, Rate(w, p.max, 0, None), Bursts(p))
    ensures Clock(rs) <= Window(p)
    ensures forall n | 0 <= n < 2 * p.max - 1 :: !Spaced(Granted(p, rs, src), n, Window(p))
  {
    WindowPositive(p);
    BurstsCrowd(p, []);
    assert Bursts(p) + [] == Bursts(p);
    hide Window, Early, Clock, Granted, Run, Clocked, Spaced;
    var w := Window(p);
    var times := Early(p);
    rs := FirstWindow(p, src);
    hide Touch;
    WindowEnds(p, Rate(0, p.max, 0, None), w);
    OneMore(p, rs, src, Rate(0, p.max, 0, None), times, w);
    rs := rs + [Request(src, w)];
    hide Alone;
    Burst(p, rs, src, Rate(w, 1, 0, None), times + [w], w, p.max - 1);
    assert times + [w] + Times(w, p.max - 1) == times + Times(w, p.max);
    rs := rs + Repeat(src, w, p.max - 1);
  }

  /** A request over the limit is dropped and strikes; the third strike starts the cooldown. */
  lemma Strike(p: Params, now: nat, k: nat)
    requires Clamped(p) && p.cooldownSecs > 0 && k < 3
    ensures Touch(p, Rate(now, p.max + k, k, None), now)
         == (Rate(now, p.max + k + 1, k + 1, if k == 2 then Some(now + Cooldown(p)) else None), false)
  {
    WindowPositive(p);
    hide Window, Cooldown;
  }

  lemma StrikeMore(p: Params, rs: seq<Request>, src: Source, now: nat, k: nat, times: seq<nat>)
    requires Clamped(p) && p.cooldownSecs > 0 && k < 3
    requires Alone(p, rs, src, Rate(now, p.max + k, k, None), times) && Clock(rs) <= now
    ensures Alone(p, rs + [Request(src, now)], src,
                  Rate(now, p.max + k + 1, k + 1, if k == 2 then Some(now + Cooldown(p)) else None), times)
    ensures Clock(rs + [Request(src, now)]) <= now
  {
    hide Alone, Touch, Clock, Cooldown;
    Strike(p, now, k);
    OneMore(p, rs, src, Rate(now, p.max + k, k, None), times, now);
  }

  lemma ThreeStrikes(p: Params, src: Source) returns (rs: seq<Request>)
    requires Clamped(p) && p.cooldownSecs > 0
    ensures var w := Window(p);
            Alone(p, rs, src, Rate(w, p.max + 3, 3, Some(w + Cooldown(p))), Bursts(p))
    ensures Clock(rs) <= Window(p)
  {
    hide Alone, Window, Cooldown, Bursts, Clock;
    var w := Window(p);
    rs := SecondWindow(p, src);
    StrikeMore(p, rs, src, w, 0, Bursts(p));
    rs := rs + [Request(src, w)];
    StrikeMore(p, rs, src, w, 1, Bursts(p));
    rs := rs + [Request(src, w)];
    StrikeMore(p, rs, src, w, 2, Bursts(p));
    rs := rs + [Request(src, w)];
  }

  lemma Reopens(p: Params, r: Rate, late: nat)
    requires Clamped(p) && r.until == Some(late)
    ensures Touch(p, r, late) == (Rate(late, 1, 0, None), true)
    ensures Touch(p, Rate(late, 1, 0, None), late) == (Rate(late, 2, 0, None), true)
  {
    WindowPositive(p);
    hide Window;
  }

  lemma AfterCooldown(p: Params, src: Source) returns (rs: seq<Request>)
    requires Clamped(p) && p.cooldownSecs > 0
    ensures var w, late := Window(p), Window(p) + Cooldown(p);
            Alone(p, rs, src, Rate(late, 2, 0, None), Bursts(p) + [late] + [late])
  {
    WindowPositive(p);
    hide Alone, Window, Cooldown, Touch, Bursts, Clock;
    var w, late := Window(p), Window(p) + Cooldown(p);
    var times := Bursts(p);
    rs := ThreeStrikes(p, src);
    Reopens(p, Rate(w, p.max + 3, 3, Some(late)), late);
    OneMore(p, rs, src, Rate(w, p.max + 3, 3, Some(late)), times, late);
    rs := rs + [Request(src, late)];
    OneMore(p, rs, src, Rate(late, 1, 0, None), times + [late], late);
    rs := rs + [Request(src, late)];
  }

  /** With a cooldown shorter than the window, some run lets more than twice the limit through. */
  lemma ShortCooldown(p: Params, src: Source) returns (rs: seq<Request>)
    requires Clamped(p) && !Settled(p)
    ensures Clocked(rs) && forall n | 0 <= n <= 2 * p.max :: !Spaced(Granted(p, rs, src), n, Window(p))
  {
    var late := Window(p) + Cooldown(p);
    assert late < 2 * Window(p) - 1;
    BurstsCrowd(p, [late, late]);
    rs := AfterCooldown(p, src);
    assert Bursts(p) + [late] + [late] == Bursts(p) + [late, late];
  }

  // ---------- the exact maximum ----------

  /** In every run every source gets at most n requests through in less than a window. */
  ghost predicate Limits(p: Params, n: nat) {
    forall rs, src | Clocked(rs) :: Spaced(Granted(p, rs, src), n, Window(p))
  }

  ghost predicate Rises(times: seq<nat>, clock: nat) {
    (forall i, j | 0 <= i < j < |times| :: times[i] <= times[j]) && forall i | 0 <= i < |times| :: times[i] <= clock
  }

  lemma RisesMore(times: seq<nat>, clock: nat, now: nat)
    requires Rises(times, clock) && clock <= now
    ensures Rises(times, now) && Rises(times + [now], now)
  {}

  lemma {:induction false} GrantedRises(p: Params, rs: seq<Request>, src: Source)
    requires Clocked(rs)
    ensures Rises(Granted(p, rs, src), Clock(rs))
    decreases |rs|
  {
    if rs == [] {
    } else {
      var before := rs[..|rs| - 1];
      GrantedRises(p, before, src);
      assert Clock(before) <= Clock(rs);
      hide Step, Rises;
      RisesMore(Granted(p, before, src), Clock(before), Clock(rs));
    }
  }

  lemma SpacedWider(times: seq<nat>, clock: nat, n: nat, n': nat, w: nat)
    requires Rises(times, clock) && n <= n' && Spaced(times, n, w)
    ensures Spaced(times, n', w)
  {
    forall i | 0 <= i && i + n' < |times|
      ensures times[i] + w <= times[i + n']
    {
      assert times[i] + w <= times[i + n];
      if n < n' { assert times[i + n] <= times[i + n']; }
    }
  }

  lemma LimitsWider(p: Params, n: nat, n': nat)
    requires n <= n' && Limits(p, n)
    ensures Limits(p, n')
  {
    hide Granted, Window, Clocked, Spaced, Rises;
    forall rs, src | Clocked(rs)
      ensures Spaced(Granted(p, rs, src), n', Window(p))
    {
      GrantedRises(p, rs, src);
      SpacedWider(Granted(p, rs, src), Clock(rs), n, n', Window(p));
    }
  }

  /** The limiter keeps every source under twice the limit per window if and only if the cooldown
      is off or at least as long as the window; then one under twice the limit is the exact maximum,
      and no setting does better. */
  lemma LimitExact(p: Params)
    requires Clamped(p)
    ensures Settled(p) <==> Limits(p, 2 * p.max - 1)
    ensures Settled(p) ==> forall n: nat :: Limits(p, n) <==> n >= 2 * p.max - 1
    ensures forall n: nat | n < 2 * p.max - 1 :: !Limits(p, n)
  {
    hide Spaced, Granted, Window, Clocked, Run;
    var rs := SecondWindow(p, "");
    assert forall n: nat | n < 2 * p.max - 1 :: !Limits(p, n);
    if Settled(p) {
      forall rs, src | Clocked(rs)
        ensures Spaced(Granted(p, rs, src), 2 * p.max - 1, Window(p))
      {
        UnderTwiceTheLimit(p, rs, src);
      }
      forall n: nat | n >= 2 * p.max - 1
        ensures Limits(p, n)
      {
        LimitsWider(p, 2 * p.max - 1, n);
      }
    } else {
      var rs' := ShortCooldown(p, "");
      assert !Spaced(Granted(p, rs', ""), 2 * p.max - 1, Window(p));
    }
  }

  /** The limit itself is not kept per sliding window, under any setting: some run of one source
      gets more than the limit through in less than a window. */
  lemma NoSlidingLimit(p: Params)
    requires Clamped(p)
    ensures exists rs, src :: Clocked(rs) && !Spaced(Granted(p, rs, src), p.max, Window(p))
  {
    hide Spaced, Granted, Window, Run;
    var rs := SecondWindow(p, "");
    assert Clocked(rs) && !Spaced(Granted(p, rs, ""), p.max, Window(p));
  }

  // ---------- sources that keep to the limit ----------

  /** All request times of one source. */
  function Asked(rs: seq<Request>, src: Source): seq<nat>
    decreases |rs|
  {
    if rs == [] then []
    else
      var last, before := rs[|rs| - 1], Asked(rs[..|rs| - 1], src);
      if last.src == src then before + [last.now] else before
  }

  ghost predicate Counts(asked: seq<nat>, r: Rate, clock: nat) {
    r.until.None? && r.start <= clock && r.count <= |asked| &&
    forall i | 0 <= i < |asked| && |asked| - r.count <= i :: r.start <= asked[i]
  }

  lemma CountsOn(p: Params, asked: seq<nat>, r: Rate, clock: nat, now: nat)
    requires Clamped(p) && Counts(asked, r, clock) && clock <= now && r.count <= p.max
    requires Spaced(asked + [now], p.max, Window(p))
    ensures Touch(p, r, now).1
    ensures Counts(asked + [now], Touch(p, r, now).0, now) && Touch(p, r, now).0.count <= p.max
  {
    WindowPositive(p);
    hide Window, Cooldown;
    var all := asked + [now];
    var open := Opened(p, r, now);
    assert |asked| >= p.max ==> all[|asked| - p.max] + Window(p) <= all[|asked|];
  }

  lemma SpacedPrefix(times: seq<nat>, now: nat, n: nat, w: nat)
    requires Spaced(times + [now], n, w)
    ensures Spaced(times, n, w)
  {
    forall i | 0 <= i && i + n < |times|
      ensures times[i] + w <= times[i + n]
    {
      assert (times + [now])[i] + w <= (times + [now])[i + n];
    }
  }

  ghost predicate Unharmed(p: Params, rs: seq<Request>, src: Source) {
    Granted(p, rs, src) == Asked(rs, src) &&
    (src in Run(p, rs) ==> Counts(Asked(rs, src), Run(p, rs)[src], Clock(rs)) && Run(p, rs)[src].count <= p.max)
  }

  lemma {:induction false} KeptUnharmed(p: Params, rs: seq<Request>, src: Source)
    requires Clamped(p) && Clocked(rs) && Spaced(Asked(rs, src), p.max, Window(p))
    ensures Unharmed(p, rs, src)
    decreases |rs|
  {
    if rs == [] {
    } else {
      var before, last := rs[..|rs| - 1], rs[|rs| - 1];
      if last.src == src { SpacedPrefix(Asked(before, src), last.now, p.max, Window(p)); }
      KeptUnharmed(p, before, src);
      assert Clock(before) <= last.now;
      hide Window, Spaced, Touch;
      var t := Run(p, before);
      if last.src == src {
        var e := EntryFor(p, t, src, last.now);
        assert Counts(Asked(before, src), e, last.now) && e.count <= p.max;
        CountsOn(p, Asked(before, src), e, last.now, last.now);
      }
    }
  }

  /** A source that never asks more than the limit within less than a window is never dropped,
      whatever the others do. */
  lemma HonestKept(p: Params, rs: seq<Request>, src: Source)
    requires Clamped(p) && Clocked(rs) && Spaced(Asked(rs, src), p.max, Window(p))
    ensures Granted(p, rs, src) == Asked(rs, src)
  {
    hide Spaced, Granted, Asked, Run;
    KeptUnharmed(p, rs, src);
  }

  // ---------- what a request does to the table ----------

  /** A request leaves the entries of other sources alone, unless the table holds more than 8192: then
      exactly those go that are neither in a cooldown nor in a window still open. */
  lemma OthersExact(p: Params, t: Table, src: Source, now: nat, other: Source)
    requires Clamped(p) && other != src
    ensures var t' := Step(p, t, src, now).0;
            (other in t' ==> other in t && t'[other] == t[other]) &&
            (other in t ==>
               (other in t' <==>
                |t| <= 8192 || t[other].start + p.windowSecs * 1_000_000_000 > now ||
                (t[other].until.Some? && t[other].until.value > now)))
  {
    hide Touch, EntryFor;
  }

  /** A source in a cooldown stays in it, in any run and through pruning: until it ends, every request
      of the source is turned away and its entry stands unchanged. */
  lemma {:induction false} CooldownHolds(p: Params, rs: seq<Request>, k: nat, src: Source, until: nat)
    requires k <= |rs| && src in Run(p, rs[..k]) && Run(p, rs[..k])[src].until == Some(until)
    requires forall i | k <= i < |rs| :: rs[i].now < until
    ensures src in Run(p, rs) && Run(p, rs)[src] == Run(p, rs[..k])[src]
    ensures Granted(p, rs, src) == Granted(p, rs[..k], src)
    decreases |rs|
  {
    hide Granted, Run, Step;
    if k == |rs| {
      assert rs[..k] == rs;
    } else {
      var n := |rs| - 1;
      assert rs[..n][..k] == rs[..k];
      CooldownHolds(p, rs[..n], k, src, until);
      RunSteps(p, rs, src);
      CooldownStep(p, Run(p, rs[..n]), rs[n].src, rs[n].now, src, until);
    }
  }

  lemma RunSteps(p: Params, rs: seq<Request>, src: Source)
    requires rs != []
    ensures var n := |rs| - 1;
            Run(p, rs) == Step(p, Run(p, rs[..n]), rs[n].src, rs[n].now).0 &&
            Granted(p, rs, src) ==
            if rs[n].src == src && Step(p, Run(p, rs[..n]), src, rs[n].now).1
            then Granted(p, rs[..n], src) + [rs[n].now] else Granted(p, rs[..n], src)
  {
    hide Step;
  }

  lemma CooldownStep(p: Params, t: Table, asking: Source, now: nat, src: Source, until: nat)
    requires src in t && t[src].until == Some(until) && now < until
    ensures src in Step(p, t, asking, now).0 && Step(p, t, asking, now).0[src] == t[src]
    ensures asking == src ==> !Step(p, t, asking, now).1
  {
    hide TouchOpen, Opened;
    assert Kept(p, t[src], now);
  }

  /** When it ends, the next request is let through into a new window, with no strike left. */
  lemma CooldownEnds(p: Params, t: Table, src: Source, now: nat)
    requires Clamped(p) && src in t && t[src].until.Some? && t[src].until.value <= now
    ensures Step(p, t, src, now).1 && Step(p, t, src, now).0[src] == Rate(now, 1, 0, None)
  {
    WindowPositive(p);
    hide Window;
  }

  /** When a window ends outside a cooldown, the next request starts a new one; strikes are forgiven
      exactly if the window that ended was kept within the limit. */
  lemma WindowEnds(p: Params, r: Rate, now: nat)
    requires Clamped(p) && r.until.None? && r.start + Window(p) <= now
    ensures Touch(p, r, now) == (Rate(now, 1, if r.count <= p.max then 0 else r.strikes, None), true)
  {
    hide Window;
  }
}
