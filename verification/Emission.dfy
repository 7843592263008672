/** The subsidy schedule of src/constants.rs, with the height of the block-time fork as a parameter. */
module Emission {
  import opened Basics

  const INITIAL_SUBSIDY: nat := 50 * 100_000_000
  const V1: nat := 210_000
  const V2: nat := 1_050_000

  function HalvingCount(fork: Option<nat>, height: nat): nat {
    if height == 0 then 0
    else if fork.Some? && height > fork.value then
      (if fork.value == 0 then 0 else (fork.value - 1) / V1) + (height - fork.value - 1) / V2
    else (height - 1) / V1
  }

  /** v >> k. */
  function ShiftRight(v: nat, k: nat): nat {
    if k == 0 then v else ShiftRight(v, k - 1) / 2
  }

  function BlockReward(fork: Option<nat>, height: nat): nat {
    if height == 0 || HalvingCount(fork, height) >= 64 then 0
    else ShiftRight(INITIAL_SUBSIDY, HalvingCount(fork, height))
  }

  /** The subsidy of blocks 1 to height. */
  function Issued(fork: Option<nat>, height: nat): nat {
    if height == 0 then 0 else Issued(fork, height - 1) + BlockReward(fork, height)
  }

  /** How many blocks up to this one share its halving count. */
  function InEpoch(fork: Option<nat>, height: nat): nat
    requires height > 0
  {
    if fork.Some? && height > fork.value then
      var h := height - fork.value - 1;
      if h / V2 > 0 then h % V2 + 1
      else (if fork.value == 0 then 0 else (fork.value - 1) % V1 + 1) + h + 1
    else (height - 1) % V1 + 1
  }

  /** From one block to the next the count stays, one block further into the epoch, or rises by
      one at the start of the next; across the fork it stays. */
  lemma CountStep(fork: Option<nat>, height: nat)
    ensures HalvingCount(fork, height) <= HalvingCount(fork, height + 1) <= HalvingCount(fork, height) + 1
    ensures fork == Some(height) ==> HalvingCount(fork, height + 1) == HalvingCount(fork, height)
    ensures height > 0 ==>
              (InEpoch(fork, height + 1) ==
               if HalvingCount(fork, height + 1) == HalvingCount(fork, height) then InEpoch(fork, height) + 1 else 1)
    ensures height > 0 ==> InEpoch(fork, height) <= V1 + V2
  {}

  lemma {:induction false} ShiftHalves(v: nat, a: nat, b: nat)
    requires a <= b
    ensures ShiftRight(v, b) <= ShiftRight(v, a)
    decreases b - a
  {
    if a == b {
    } else {
      ShiftHalves(v, a, b - 1);
    }
  }

  lemma RewardStep(fork: Option<nat>, height: nat)
    ensures height > 0 ==> BlockReward(fork, height + 1) <= BlockReward(fork, height)
  {
    CountStep(fork, height);
    hide HalvingCount, ShiftRight;
    ShiftHalves(INITIAL_SUBSIDY, HalvingCount(fork, height), HalvingCount(fork, height + 1));
  }

  /** Two heights in order: the count does not fall and the reward does not rise. */
  lemma {:induction false} ScheduleMonotone(fork: Option<nat>, a: nat, b: nat)
    requires a <= b
    ensures HalvingCount(fork, a) <= HalvingCount(fork, b) <= HalvingCount(fork, a) + (b - a)
    ensures a > 0 ==> BlockReward(fork, b) <= BlockReward(fork, a)
    decreases b - a
  {
    hide HalvingCount, BlockReward;
    if a == b {
    } else {
      ScheduleMonotone(fork, a, b - 1);
      CountStep(fork, b - 1);
      RewardStep(fork, b - 1);
    }
  }

  // ---------- when the reward halves, and to what ----------

  /** Halvings stand every 210000 blocks up to the fork, and every 1050000 counted from it after. */
  ghost predicate Halves(fork: Option<nat>, height: nat) {
    if fork.Some? && height > fork.value
    then exists k: nat :: k > 0 && height == fork.value + Times(k, 1_050_000) + 1
    else exists k: nat :: k > 0 && height == Times(k, 210_000) + 1
  }

  function Times(k: nat, n: nat): nat { k * n }

  lemma QuotientRises(x: nat, n: nat)
    requires n > 0
    ensures (x + 1) / n == x / n + (if (x + 1) % n == 0 then 1 else 0)
    ensures (x + 1) % n == 0 <==> exists k: nat :: k > 0 && x + 1 == Times(k, n)
  {
    var q, r := x / n, x % n;
    assert x == n * q + r;
    if r + 1 == n {
      assert x + 1 == n * (q + 1);
      QuotientIs(x + 1, n, q + 1, 0);
      assert Times(q + 1, n) == x + 1;
    } else {
      QuotientIs(x + 1, n, q, r + 1);
      forall k: nat | k > 0
        ensures x + 1 != Times(k, n)
      {
        if x + 1 == Times(k, n) { QuotientIs(x + 1, n, k, 0); }
      }
    }
  }

  lemma QuotientIs(x: nat, n: nat, q: nat, r: nat)
    requires n > 0 && x == n * q + r && r < n
    ensures x / n == q && x % n == r
  {
    var q', r' := x / n, x % n;
    assert x == n * q' + r';
    Below(n, q, q', r, r');
    Below(n, q', q, r', r);
  }

  lemma Below(n: nat, a: nat, b: nat, r: nat, r': nat)
    requires r < n && r' < n && n * a + r == n * b + r'
    ensures a <= b
  {
    MulUp(n, b + 1, if a > b then a else b + 1);
  }

  /** No halving has happened at genesis, and the count rises by one at each halving height. */
  lemma CountExact(fork: Option<nat>, height: nat)
    ensures HalvingCount(fork, 0) == 0
    ensures HalvingCount(fork, height + 1) == HalvingCount(fork, height) + (if Halves(fork, height + 1) then 1 else 0)
  {
    hide Times;
    if height == 0 {
      NoneAtOne(fork);
    } else if fork.Some? && height > fork.value {
      QuotientRises(height - fork.value - 1, V2);
    } else if fork.Some? && height == fork.value {
      NoneAtOne(fork);
    } else {
      QuotientRises(height - 1, V1);
    }
  }

  lemma NoneAtOne(fork: Option<nat>)
    ensures !Halves(fork, 1) && (fork.Some? ==> !Halves(fork, fork.value + 1))
  {}

  function Pow2(k: nat): (r: nat)
    ensures r > 0
  {
    if k == 0 then 1 else 2 * Pow2(k - 1)
  }

  lemma {:induction false} ShiftExact(v: nat, k: nat)
    ensures ShiftRight(v, k) * Pow2(k) <= v < (ShiftRight(v, k) + 1) * Pow2(k)
  {
    if k > 0 {
      ShiftExact(v, k - 1);
      HalfOf(v, ShiftRight(v, k - 1), Pow2(k - 1));
    }
  }

  lemma HalfOf(v: nat, a: nat, w: nat)
    requires a * w <= v < (a + 1) * w
    ensures (a / 2) * (2 * w) <= v < (a / 2 + 1) * (2 * w)
  {
    var b := a / 2;
    MulUp(w, 2 * b, a);
    MulUp(w, a + 1, 2 * (b + 1));
    assert b * (2 * w) == w * (2 * b) && (b + 1) * (2 * w) == w * (2 * (b + 1));
  }

  lemma {:induction false} SixtyFour(k: nat)
    requires k >= 64
    ensures Pow2(k) > INITIAL_SUBSIDY
    decreases k
  {
    if k > 64 {
      SixtyFour(k - 1);
      assert Pow2(k) == 2 * Pow2(k - 1);
    } else {
      PowerOf64();
    }
  }

  lemma PowerOf64()
    ensures Pow2(64) == 0x1_0000_0000_0000_0000
  {
    assert Pow2(4) == 16;
    hide Pow2;
    Pow2Adds(4, 4);
    assert Pow2(8) == 0x100;
    Pow2Adds(8, 8);
    assert Pow2(16) == 0x1_0000;
    Pow2Adds(16, 16);
    assert Pow2(32) == 0x1_0000_0000;
    Pow2Adds(32, 32);
  }

  lemma Doubled(x: nat, y: nat)
    ensures 2 * (x * y) == (2 * x) * y
  {}

  lemma {:induction false} Pow2Adds(a: nat, b: nat)
    ensures Pow2(a + b) == Pow2(a) * Pow2(b)
  {
    if a > 0 {
      Pow2Adds(a - 1, b);
      assert a + b - 1 == (a - 1) + b;
      assert Pow2(a) == 2 * Pow2(a - 1) && Pow2(a + b) == 2 * Pow2(a - 1 + b);
      hide Pow2;
      Doubled(Pow2(a - 1), Pow2(b));
    }
  }

  /** The reward is 50 coins halved once for each halving so far, rounded down; genesis has none. */
  lemma RewardExact(fork: Option<nat>, height: nat)
    ensures BlockReward(fork, 0) == 0
    ensures height > 0 ==>
              var reward, share := BlockReward(fork, height), Pow2(HalvingCount(fork, height));
              reward * share <= 50 * 100_000_000 < (reward + 1) * share
  {
    hide HalvingCount, ShiftRight, Pow2;
    var k := HalvingCount(fork, height);
    if height > 0 && k < 64 {
      ShiftExact(INITIAL_SUBSIDY, k);
    } else if height > 0 {
      SixtyFour(k);
    }
  }

  const CEILING: nat := INITIAL_SUBSIDY * (2 * V1 + 2 * V2)

  /** Subsidy still covered by the ceiling after this block. */
  function Headroom(fork: Option<nat>, height: nat): int
    requires height > 0
  {
    (2 * (V1 + V2) - InEpoch(fork, height)) * BlockReward(fork, height)
  }

  lemma HeadroomSame(x: int, c: int, r: int)
    ensures (x - (c + 1)) * r + r == (x - c) * r
  {}

  lemma HeadroomNext(x: int, c: int, r: int, r': int)
    requires 0 <= 2 * c <= x && 0 <= 2 * r' <= r
    ensures (x - 1) * r' + r' <= (x - c) * r
  {
    assert (x - 1) * r' + r' == x * r';
    Products(x, c, r, r');
  }

  lemma Products(x: int, c: int, r: int, r': int)
    requires 0 <= 2 * c <= x && 0 <= 2 * r' <= r
    ensures x * r' <= (x - c) * r
  {
    MulUp(x, 2 * r', r);
    assert 2 * (x * r') == x * (2 * r');
    MulUp(r, x, 2 * (x - c));
    assert 2 * ((x - c) * r) == r * (2 * (x - c));
    assert x * r == r * x;
  }

  lemma MulUp(x: int, a: int, b: int)
    requires 0 <= x && a <= b
    ensures x * a <= x * b
  {}

  lemma HeadroomFalls(fork: Option<nat>, height: nat)
    requires height > 0
    ensures Headroom(fork, height + 1) + BlockReward(fork, height + 1) <= Headroom(fork, height)
  {
    hide HalvingCount, InEpoch, BlockReward;
    CountStep(fork, height);
    var x, c := 2 * (V1 + V2), InEpoch(fork, height);
    var r, r' := BlockReward(fork, height), BlockReward(fork, height + 1);
    if HalvingCount(fork, height + 1) == HalvingCount(fork, height) {
      RewardStays(fork, height);
      HeadroomSame(x, c, r);
    } else {
      RewardHalves(fork, height);
      HeadroomNext(x, c, r, r');
    }
  }

  lemma {:induction false} IssuedCovered(fork: Option<nat>, height: nat)
    requires height > 0
    ensures Issued(fork, height) + Headroom(fork, height) <= CEILING
    decreases height
  {
    hide Headroom, BlockReward;
    if height == 1 {
      FirstBlock(fork);
    } else {
      IssuedCovered(fork, height - 1);
      HeadroomFalls(fork, height - 1);
    }
  }

  lemma RewardHalves(fork: Option<nat>, height: nat)
    requires height > 0 && HalvingCount(fork, height + 1) == HalvingCount(fork, height) + 1
    ensures 2 * BlockReward(fork, height + 1) <= BlockReward(fork, height)
  {
    hide HalvingCount;
  }

  lemma RewardStays(fork: Option<nat>, height: nat)
    requires height > 0 && HalvingCount(fork, height + 1) == HalvingCount(fork, height)
    ensures BlockReward(fork, height + 1) == BlockReward(fork, height)
  {
    hide HalvingCount, ShiftRight;
  }

  lemma FirstBlock(fork: Option<nat>)
    ensures Issued(fork, 1) + Headroom(fork, 1) <= CEILING
  {
    assert Issued(fork, 0) == 0;
    assert HalvingCount(fork, 1) == 0 && InEpoch(fork, 1) >= 1;
    assert BlockReward(fork, 1) == INITIAL_SUBSIDY;
    assert Headroom(fork, 1) <= (2 * (V1 + V2) - 1) * INITIAL_SUBSIDY;
  }

  lemma NothingIssued(fork: Option<nat>)
    ensures Issued(fork, 0) == 0
  {}

  lemma HeadroomLeft(fork: Option<nat>, height: nat)
    requires height > 0
    ensures Headroom(fork, height) >= 0
  {
    CountStep(fork, height);
    hide HalvingCount, InEpoch, BlockReward;
    MulUp(BlockReward(fork, height), 0, 2 * (V1 + V2) - InEpoch(fork, height));
  }

  /** Wherever the fork lies, all subsidies together stay below two epochs of either kind at the
      first reward. */
  lemma IssuedBounded(fork: Option<nat>, height: nat)
    ensures Issued(fork, height) <= CEILING
  {
    hide Issued, Headroom;
    if height > 0 {
      IssuedCovered(fork, height);
      HeadroomLeft(fork, height);
    } else {
      NothingIssued(fork);
    }
  }
}
