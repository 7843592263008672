/** What the expected bits are, in terms of the time the last window took. */
module RelayRetarget {
  import opened Basics
  import opened CompactBits
  import opened RelayModel
  import opened RelayTree
  import opened RelayMedian
  import opened RelayDifficulty

  /** Seconds from the window's first header to its last, none if the clock ran backwards. */
  function Elapsed(parentTime: u32, firstTime: u32): nat {
    if parentTime < firstTime then 0 else parentTime - firstTime
  }

  /** least is the expected time over the divisor, rounded down. */
  ghost predicate Shortest(r: RetargetParams, least: nat) {
    least * r.minDivisor <= r.expectedTimespan < (least + 1) * r.minDivisor
  }

  /** most is the expected time times the multiplier, held to 32 bits. */
  ghost predicate Longest(r: RetargetParams, most: nat) {
    var longest := r.expectedTimespan as int * r.maxMultiplier;
    most == if longest < U32_MAX then longest else U32_MAX
  }

  /** The time a retarget goes by: what elapsed, held between the shortest and the longest. */
  ghost predicate Spans(r: RetargetParams, elapsed: nat, span: nat) {
    exists least: nat, most: nat :: Shortest(r, least) && Longest(r, most) &&
      span == if elapsed > most then most else if elapsed >= least then elapsed else if least <= most then least else most
  }

  /** t is the parent's target scaled by span over the expected time, rounded down and capped. */
  ghost predicate Scales(r: RetargetParams, parentTarget: nat, span: nat, t: nat) {
    var e, cap := r.expectedTimespan, Decode(r.maxTargetBits);
    t <= cap &&
    (t < cap ==> t * e <= parentTarget * span < (t + 1) * e) &&
    (t == cap ==> t * e <= parentTarget * span)
  }

  lemma TimespanSpans(r: RetargetParams, parentTime: u32, firstTime: u32)
    requires r.minDivisor > 0
    ensures Spans(r, Elapsed(parentTime, firstTime), Timespan(r, parentTime, firstTime))
  {
    hide Shortest, Longest, Quot, Prod;
    var least, most := Quot(r.expectedTimespan, r.minDivisor), Min(Prod(r.expectedTimespan, r.maxMultiplier), U32_MAX);
    ShortestIs(r);
    LongestIs(r);
    assert Shortest(r, least) && Longest(r, most);
  }

  lemma ShortestIs(r: RetargetParams)
    requires r.minDivisor > 0
    ensures Shortest(r, Quot(r.expectedTimespan, r.minDivisor))
  {
    QuotientExact(r.expectedTimespan, r.minDivisor);
  }

  lemma LongestIs(r: RetargetParams)
    ensures Longest(r, Min(Prod(r.expectedTimespan, r.maxMultiplier), U32_MAX))
  {
  }

  lemma RetargetScales(r: RetargetParams, parentTarget: nat, span: nat)
    requires r.expectedTimespan > 0
    ensures Scales(r, parentTarget, span, RetargetedTarget(r, parentTarget, span))
  {
    hide Decode;
    var e, cap, all := r.expectedTimespan, Decode(r.maxTargetBits), parentTarget * span;
    QuotientExact(all, e);
    if cap <= all / e { MulMonotone(cap, all / e, e); }
  }

  /** The time in a header, or the anchor's. */
  function TimeOf(p: Params, m: Headers, h: Hash): u32
    requires Known(p, m, h)
  {
    if h in m && h != p.anchor.hash then m[h].header.time else p.anchor.time
  }

  /** How far below the parent the window opens: Bitcoin counts the parent itself, Litecoin goes
      one further back except in the very first window. */
  function Lookback(kind: Kind, window: nat, height: nat): nat
    requires window > 0
  {
    if kind.Ltc? && height > window then window else window - 1
  }

  /** The bits a header above a known parent must have: the parent's between retarget heights; at one,
      the target scaled by the time since the ancestor at which the window opens; and no answer if
      that ancestor would lie below the anchor. */
  lemma ExpectedBitsExact(p: Params, m: Headers, parent: Hash)
    requires p.Usable() && Linked(p, m) && Grounded(p, m) && Known(p, m, parent)
    ensures var height := HeightAt(p, m, parent) + 1;
            var bits := ExpectedBits(p, m, height, parent);
            var parentBits := if parent == p.anchor.hash then p.anchor.bits else m[parent].header.bits;
            if p.retarget.window == 0 || height % p.retarget.window != 0 then bits == Ok(parentBits)
            else
              var steps := Lookback(p.kind, p.retarget.window, height);
              if HeightAt(p, m, parent) < p.anchor.height + steps then bits == Err(WindowBeforeAnchor)
              else
                Back(p, m, parent, steps).Some? && Known(p, m, Back(p, m, parent, steps).value) &&
                exists span, t :: bits == Ok(Encode(t)) &&
                  Spans(p.retarget, Elapsed(TimeOf(p, m, parent), TimeOf(p, m, Back(p, m, parent, steps).value)), span) &&
                  Scales(p.retarget, Decode(parentBits), span, t)
  {
    hide Encode, Decode, RetargetedTarget, Timespan, WalkTime, GroundedAt, LinkOk, Spans, Scales;
    var height, r := HeightAt(p, m, parent) + 1, p.retarget;
    if IsMultipleOf(height, r.window) {
      MultipleAtLeast(height, r.window);
      var steps, first := Lookback(p.kind, r.window, height), FirstHeight(p.kind, r.window, height);
      assert first + steps == HeightAt(p, m, parent);
      if p.anchor.height <= first {
        WalkFinds(p, m, parent, first);
        var a := Back(p, m, parent, steps).value;
        var span := Timespan(r, TimeAt(p, m, parent), TimeAt(p, m, a));
        TimespanSpans(r, TimeAt(p, m, parent), TimeAt(p, m, a));
        RetargetScales(r, Decode(BitsAt(p, m, parent)), span);
        assert TimeOf(p, m, parent) == TimeAt(p, m, parent) && TimeOf(p, m, a) == TimeAt(p, m, a);
        var t := RetargetedTarget(r, Decode(BitsAt(p, m, parent)), span);
        assert ExpectedBits(p, m, height, parent) == Ok(Encode(t));
      }
    }
  }
}
