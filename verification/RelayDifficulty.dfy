/** The retarget walk and the targets along stored branches. */
module RelayDifficulty {
  import opened Basics
  import opened CompactBits
  import opened RelayModel
  import opened RelayTree
  import opened RelayMedian

  // ---------- the walk finds the ancestor ----------

  /** n steps below h the height is n lower. */
  lemma {:induction false} BackHeight(p: Params, m: Headers, h: Hash, n: nat)
    requires Linked(p, m) && Back(p, m, h, n).Some?
    ensures Known(p, m, h) && Known(p, m, Back(p, m, h, n).value)
    ensures HeightAt(p, m, Back(p, m, h, n).value) + n == HeightAt(p, m, h)
    decreases n
  {
    if n > 0 {
      assert LinkOk(p, m, h);
      BackHeight(p, m, m[h].header.prevHash, n - 1);
    }
  }

  /** Every height from the anchor up to h has an ancestor of h. */
  lemma {:induction false} BackReaches(p: Params, m: Headers, h: Hash, n: nat)
    requires Linked(p, m) && Known(p, m, h) && n + p.anchor.height <= HeightAt(p, m, h)
    ensures Back(p, m, h, n).Some?
    decreases n
  {
    if n > 0 {
      assert LinkOk(p, m, h);
      BackReaches(p, m, m[h].header.prevHash, n - 1);
    }
  }

  lemma {:induction false} AboveAnchor(p: Params, m: Headers, h: Hash)
    requires Linked(p, m) && h in m
    ensures m[h].height > p.anchor.height
    decreases m[h].height
  {
    assert LinkOk(p, m, h);
    var q := m[h].header.prevHash;
    if q != p.anchor.hash { AboveAnchor(p, m, q); }
  }

  /** From a known header, the walk to any height between the anchor and it returns the time of
      the one ancestor at that height. */
  lemma {:induction false} WalkFinds(p: Params, m: Headers, h: Hash, target: nat)
    requires Linked(p, m) && Grounded(p, m) && Known(p, m, h)
    requires p.anchor.height <= target <= HeightAt(p, m, h)
    ensures var a := Back(p, m, h, HeightAt(p, m, h) - target);
            a.Some? && Known(p, m, a.value) && HeightAt(p, m, a.value) == target &&
            WalkTime(p, m, h, target) == Ok(TimeAt(p, m, a.value))
    decreases HeightAt(p, m, h)
  {
    hide LinkOk, GroundedAt;
    BackReaches(p, m, h, HeightAt(p, m, h) - target);
    BackHeight(p, m, h, HeightAt(p, m, h) - target);
    if target == p.anchor.height {
      var a := Back(p, m, h, HeightAt(p, m, h) - target).value;
      if a != p.anchor.hash { AboveAnchor(p, m, a); }
    } else if h != p.anchor.hash && target < m[h].height {
      ParentLower(p, m, h);
      WalkFinds(p, m, m[h].header.prevHash, target);
    }
  }

  lemma ParentLower(p: Params, m: Headers, h: Hash)
    requires Linked(p, m) && h in m
    ensures Known(p, m, m[h].header.prevHash) && HeightAt(p, m, m[h].header.prevHash) + 1 == m[h].height
  {
    assert LinkOk(p, m, h);
  }

  lemma AncestorUnique(p: Params, m: Headers, h: Hash, n: nat, n': nat)
    requires Linked(p, m) && Back(p, m, h, n).Some? && Back(p, m, h, n').Some?
    requires Known(p, m, Back(p, m, h, n).value) && Known(p, m, Back(p, m, h, n').value)
    requires HeightAt(p, m, Back(p, m, h, n).value) == HeightAt(p, m, Back(p, m, h, n').value)
    ensures n == n'
  {
    BackHeight(p, m, h, n);
    BackHeight(p, m, h, n');
  }

  // ---------- the only error ----------

  lemma FirstHeightBelow(kind: Kind, window: nat, height: nat)
    requires height > 0 && IsMultipleOf(height, window)
    ensures FirstHeight(kind, window, height) < height
  {
    MultipleAtLeast(height, window);
  }

  /** For the height above a known parent, the expected bits exist unless the window opens before
      the anchor; that is the only error. */
  lemma OnlyWindowError(p: Params, m: Headers, parent: Hash)
    requires p.Usable() && Linked(p, m) && Grounded(p, m) && Known(p, m, parent)
    ensures var height := HeightAt(p, m, parent) + 1;
            var r := ExpectedBits(p, m, height, parent);
            if IsMultipleOf(height, p.retarget.window) &&
               FirstHeight(p.kind, p.retarget.window, height) < p.anchor.height
            then r == Err(WindowBeforeAnchor) else r.Ok?
  {
    hide Encode, RetargetedTarget, Timespan, WalkTime, GroundedAt;
    var height := HeightAt(p, m, parent) + 1;
    if IsMultipleOf(height, p.retarget.window) {
      var first := FirstHeight(p.kind, p.retarget.window, height);
      FirstHeightBelow(p.kind, p.retarget.window, height);
      if p.anchor.height <= first { WalkFinds(p, m, parent, first); }
    }
  }

  lemma MultiplesApart(a: nat, b: nat, window: nat)
    requires window > 0 && a % window == 0 && b % window == 0 && a < b
    ensures a + window <= b
  {
    var i, j := a / window, b / window;
    assert a == i * window && b == j * window;
    MulSign(j - i, window);
    assert (j - i) * window == j * window - i * window;
  }

  /** Above any anchor there is at most one height whose window opens before the anchor,
      for either lookback. */
  lemma OneUncheckedHeight(p: Params, a: nat, b: nat)
    requires a > p.anchor.height && b > p.anchor.height
    requires IsMultipleOf(a, p.retarget.window) && IsMultipleOf(b, p.retarget.window)
    requires FirstHeight(p.kind, p.retarget.window, a) < p.anchor.height
    requires FirstHeight(p.kind, p.retarget.window, b) < p.anchor.height
    ensures a == b
  {
    MultipleAtLeast(a, p.retarget.window);
    MultipleAtLeast(b, p.retarget.window);
    if a < b {
      MultiplesApart(a, b, p.retarget.window);
    } else if b < a {
      MultiplesApart(b, a, p.retarget.window);
    }
  }

  // ---------- targets along a branch ----------

  ghost predicate IsRetarget(p: Params, height: nat) {
    IsMultipleOf(height, p.retarget.window)
  }

  /** Between retarget heights the decoded target does not change. */
  lemma TargetConstant(p: Params, m: Headers, h: Hash)
    requires Tree(p, m) && h in m && !IsRetarget(p, m[h].height)
    ensures Known(p, m, m[h].header.prevHash)
    ensures Decode(m[h].header.bits) == Decode(BitsAt(p, m, m[h].header.prevHash))
  {
    hide Encode, Decode, RetargetedTarget, Timespan, WalkTime, GroundedAt, Mtp;
    assert RuleOk(p, m, h) && LinkOk(p, m, h);
  }

  /** The target is the same at h and n steps below it if no height in between retargets. */
  lemma {:induction false} TargetConstantBranch(p: Params, m: Headers, h: Hash, n: nat)
    requires Tree(p, m) && Back(p, m, h, n).Some? && Known(p, m, h)
    requires forall k | HeightAt(p, m, h) - n < k <= HeightAt(p, m, h) :: k >= 0 && !IsRetarget(p, k)
    ensures Known(p, m, Back(p, m, h, n).value)
    ensures Decode(BitsAt(p, m, h)) == Decode(BitsAt(p, m, Back(p, m, h, n).value))
    decreases n
  {
    hide Decode, RuleOk, IsRetarget, GroundedAt, LinkOk;
    BackHeight(p, m, h, n);
    if n > 0 {
      ParentLower(p, m, h);
      assert !IsRetarget(p, m[h].height);
      TargetConstant(p, m, h);
      TargetConstantBranch(p, m, m[h].header.prevHash, n - 1);
    }
  }

  /** Timespan limits in the form the chains use: both factors four, and the span divides by it. */
  ghost predicate FourfoldLimits(r: RetargetParams) {
    r.minDivisor == 4 && r.maxMultiplier == 4 && r.expectedTimespan > 0 && r.expectedTimespan % 4 == 0 &&
    Decode(r.maxTargetBits) < Pow256(254)
  }

  lemma TimespanLimits(r: RetargetParams, parentTime: u32, firstTime: u32)
    requires FourfoldLimits(r)
    ensures r.expectedTimespan <= 4 * Timespan(r, parentTime, firstTime)
    ensures Timespan(r, parentTime, firstTime) <= 4 * r.expectedTimespan as int
  {
    hide Decode;
  }

  lemma ScaleUp(t: nat, ts: nat, e: nat)
    requires e > 0 && ts <= 4 * e
    ensures t * ts / e <= 4 * t
  {
    MulMonotone(ts, 4 * e, t);
    assert ts * t == t * ts && 4 * e * t == 4 * t * e;
    DivMonotone(t * ts, 4 * t * e, e);
    ShiftBack(4 * t, e);
  }

  lemma ScaleDown(t: nat, ts: nat, e: nat)
    requires e > 0 && e <= 4 * ts
    ensures t / 4 <= t * ts / e
  {
    var q := t / 4;
    MulMonotone(4 * q, t, ts);
    MulMonotone(e, 4 * ts, q);
    assert e * q <= 4 * ts * q && 4 * ts * q == 4 * q * ts;
    assert q * e == e * q;
    DivMonotone(q * e, t * ts, e);
    ShiftBack(q, e);
  }

  /** The new target before rounding. */
  lemma RetargetRange(r: RetargetParams, t: nat, parentTime: u32, firstTime: u32)
    requires FourfoldLimits(r)
    ensures var t' := RetargetedTarget(r, t, Timespan(r, parentTime, firstTime));
            Min(Decode(r.maxTargetBits), t / 4) <= t' <= Min(Decode(r.maxTargetBits), 4 * t)
  {
    hide Decode, Timespan;
    var ts := Timespan(r, parentTime, firstTime);
    TimespanLimits(r, parentTime, firstTime);
    ScaleUp(t, ts, r.expectedTimespan);
    ScaleDown(t, ts, r.expectedTimespan);
  }

  /** Rounding to the compact form keeps the ceiling and gives up less than one part in 2^15 of the floor. */
  lemma RoundedRange(lo: nat, t: nat, hi: nat)
    requires lo <= t <= hi && t < Pow256(254)
    ensures Rounded(t) <= hi
    ensures lo > 0 ==> (lo - Rounded(t)) * 0x8000 < lo
  {
    hide Rounded, Pow256;
    RoundedBounds(t);
    RoundedBounds(lo);
    RoundedMonotone(lo, t);
  }

  /** At an enforced retarget height the target stays at or below the maximum and four times the
      parent's, and above the lesser of the maximum and a quarter of the parent's, up to rounding. */
  lemma TargetStep(p: Params, m: Headers, h: Hash)
    requires Tree(p, m) && FourfoldLimits(p.retarget) && h in m
    requires m[h].height > 0 && IsRetarget(p, m[h].height)
    requires FirstHeight(p.kind, p.retarget.window, m[h].height) >= p.anchor.height
    ensures Known(p, m, m[h].header.prevHash)
    ensures var parent := Decode(BitsAt(p, m, m[h].header.prevHash));
            var maximum, target := Decode(p.retarget.maxTargetBits), Decode(m[h].header.bits);
            var lo := Min(maximum, parent / 4);
            target <= Min(maximum, 4 * parent) && (lo > 0 ==> (lo - target) * 0x8000 < lo)
  {
    hide Encode, Decode, RetargetedTarget, Timespan, WalkTime, GroundedAt, Mtp, Pow256;
    assert RuleOk(p, m, h) && LinkOk(p, m, h);
    var q := m[h].header.prevHash;
    OnlyWindowError(p, m, q);
    var first := FirstHeight(p.kind, p.retarget.window, m[h].height);
    FirstHeightBelow(p.kind, p.retarget.window, m[h].height);
    WalkFinds(p, m, q, first);
    var parent := Decode(BitsAt(p, m, q));
    var firstTime := WalkTime(p, m, q, first).value;
    RetargetRange(p.retarget, parent, TimeAt(p, m, q), firstTime);
    var t := RetargetedTarget(p.retarget, parent, Timespan(p.retarget, TimeAt(p, m, q), firstTime));
    var maximum := Decode(p.retarget.maxTargetBits);
    RoundedRange(Min(maximum, parent / 4), t, Min(maximum, 4 * parent));
  }

  lemma ChainLimits()
    ensures FourfoldLimits(BITCOIN) && FourfoldLimits(LITECOIN)
  {
    hide Pow256, Decode;
    MaxTargetSmall(0x1d00_ffff);
    MaxTargetSmall(0x1e0f_ffff);
  }

  lemma MaxTargetSmall(bits: u32)
    requires 4 <= bits / 0x100_0000 <= 200
    ensures Decode(bits) < Pow256(254)
  {
    hide Pow256;
    var e, mantissa := bits / 0x100_0000, bits % 0x100_0000;
    Pow256Values();
    MulMonotone(mantissa, Pow256(3), Pow256(e - 3));
    Pow256Add(3, e - 3);
    Pow256Monotone(e, 253);
    Pow256Add(1, 253);
  }
}
