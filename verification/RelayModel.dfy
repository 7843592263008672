/** The header relay of src/btc_spv.rs and src/ltc_spv.rs as a function from states to states.
    One definition serves both chains; Kind selects what differs between the two files. */
module RelayModel {
  import opened Basics
  import opened CompactBits

  /** A 32-byte hash, as the integer its bytes spell little-endian. */
  type Hash = x: int | 0 <= x < 0x1_0000_0000_0000_0000_0000_0000_0000_0000_0000_0000_0000_0000_0000_0000_0000_0000

  type i32 = x: int | -0x8000_0000 <= x < 0x8000_0000

  datatype Header = Header(version: i32, prevHash: Hash, merkleRoot: Hash, time: u32, bits: u32, nonce: u32)

  datatype Entry = Entry(header: Header, height: nat, totalWork: nat)

  datatype Anchor = Anchor(hash: Hash, height: u64, bits: u32, time: u32) {
    predicate IsZero() { hash == 0 && height == 0 && bits == 0 && time == 0 }
  }

  datatype Kind = Btc | Ltc

  datatype RetargetParams = RetargetParams(
    window: u64, expectedTimespan: u32, maxTargetBits: u32, minDivisor: u32, maxMultiplier: u32)

  const BITCOIN := RetargetParams(2016, 14 * 24 * 3600, 0x1d00_ffff, 4, 4)
  const LITECOIN := RetargetParams(2016, 302_400, 0x1e0f_ffff, 4, 4)

  const MTP_WINDOW: nat := 11
  const MAX_FUTURE_SECS: u32 := 2 * 60 * 60
  const MAX_LTC_BATCH: nat := 144

  /** A configured relay. The two hash functions are parameters: sha256d of the serialized
      header, and the scrypt hash that only Litecoin's proof of work reads. */
  datatype Params = Params(kind: Kind, anchor: Anchor, retarget: RetargetParams,
                           blockHash: Header -> Hash, scryptHash: Header -> Hash) {
    /** The retarget arithmetic divides by these two. */
    predicate Usable() { retarget.expectedTimespan > 0 && retarget.minDivisor > 0 }

    /** meets_target_btc on the chain's proof-of-work hash. */
    predicate MeetsPow(h: Header) {
      (if kind.Btc? then blockHash(h) else scryptHash(h)) <= Decode(h.bits)
    }
  }

  type Headers = map<Hash, Entry>

  datatype State = State(headers: Headers, heights: map<Hash, nat>, tip: Option<Hash>, tipHeight: nat)

  const EMPTY := State(map[], map[], None, 0)

  /** BtcRelayUpdate and LtcRelayUpdate: what undo needs. */
  datatype Update = Update(tipBefore: Option<Hash>, tipHeightBefore: nat, headersAdded: seq<Hash>)

  datatype BitsError = HeightZero | ParentUnknown | WindowBeforeAnchor | Walk(walk: WalkError)
  datatype WalkError = ReachedAnchor | MissingHeader | WalkedPast

  datatype Reject =
    | NotLinked | AlreadyKnown | Duplicated | FailsPow
    | BadBits(bits: BitsError) | BitsMismatch(expected: u32, got: u32)
    | NotAboveMtp(mtp: u32) | TooFarAhead

  datatype Error =
    | EmptyBatch | TooManyHeaders | AnchorNotConfigured | NotConnected | NonTipFork
    | Rejected(index: nat, reason: Reject)

  datatype Applied = Applied(state: State, update: Update)

  // ---------- the tree under a header ----------

  predicate Known(p: Params, m: Headers, h: Hash) {
    h == p.anchor.hash || h in m
  }

  /** Every stored header has a stored parent one lower, or hangs off the anchor.
      Enough for every backward walk to end. */
  ghost predicate Grounded(p: Params, m: Headers) {
    forall h | h in m && h != p.anchor.hash :: GroundedAt(p, m, h)
  }

  ghost predicate GroundedAt(p: Params, m: Headers, h: Hash)
    requires h in m
  {
    var q := m[h].header.prevHash;
    q == p.anchor.hash || (q in m && m[h].height == m[q].height + 1)
  }

  /** Times of at most n headers, from h towards the anchor, anchor included. */
  function TimesBack(p: Params, m: Headers, h: Hash, n: nat): (times: seq<u32>)
    ensures |times| <= n
    decreases n, m
  {
    if n == 0 then []
    else if h == p.anchor.hash then [p.anchor.time]
    else if h !in m then []
    else [m[h].header.time] + TimesBack(p, m, m[h].header.prevHash, n - 1)
  }

  function Insert(x: u32, s: seq<u32>): seq<u32> {
    if s == [] || x <= s[0] then [x] + s else [s[0]] + Insert(x, s[1..])
  }

  function Sort(s: seq<u32>): seq<u32> {
    if s == [] then [] else Insert(s[0], Sort(s[1..]))
  }

  lemma {:induction false} InsertLength(x: u32, s: seq<u32>)
    ensures |Insert(x, s)| == |s| + 1
  {
    if !(s == [] || x <= s[0]) { InsertLength(x, s[1..]); }
  }

  lemma {:induction false} SortLength(s: seq<u32>)
    ensures |Sort(s)| == |s|
  {
    if s != [] {
      SortLength(s[1..]);
      InsertLength(s[0], Sort(s[1..]));
    }
  }

  function Median(times: seq<u32>): u32 {
    if times == [] then 0 else
      SortLength(times);
      Sort(times)[|times| / 2]
  }

  /** median_time_past_v. */
  function Mtp(p: Params, m: Headers, h: Hash): u32 {
    Median(TimesBack(p, m, h, MTP_WINDOW))
  }

  /** find_ancestor_time_at_height_v. */
  function WalkTime(p: Params, m: Headers, h: Hash, target: nat): Result<u32, WalkError>
    requires Grounded(p, m)
    decreases if h == p.anchor.hash || h !in m then 0 else m[h].height + 1
  {
    if target == p.anchor.height then Ok(p.anchor.time)
    else if h == p.anchor.hash then Err(ReachedAnchor)
    else if h !in m then Err(MissingHeader)
    else if m[h].height == target then Ok(m[h].header.time)
    else if m[h].height < target then Err(WalkedPast)
    else
      assert GroundedAt(p, m, h);
      WalkTime(p, m, m[h].header.prevHash, target)
  }

  // ---------- difficulty ----------

  predicate IsMultipleOf(height: nat, window: nat) {
    if window == 0 then height == 0 else height % window == 0
  }

  lemma MultipleAtLeast(height: nat, window: nat)
    requires height > 0 && IsMultipleOf(height, window)
    ensures 1 <= window <= height
    ensures height != window ==> 2 * window <= height
  {
    var k := height / window;
    assert height == k * window;
    if k >= 2 { MulMonotone(2, k, window); }
  }

  /** The height whose time opens the retarget window that closes below `height`. */
  function FirstHeight(kind: Kind, window: nat, height: nat): nat
    requires height > 0 && IsMultipleOf(height, window)
  {
    MultipleAtLeast(height, window);
    if kind.Btc? || height == window then height - window
    else height - window - 1
  }

  function Min(a: nat, b: nat): nat { if a < b then a else b }

  function Clamp(actual: nat, lo: nat, hi: nat): nat {
    var raised := if actual < lo then lo else actual;
    if raised > hi then hi else raised
  }

  /** The measured timespan after the source's two clamps. Both u32 operations saturate. */
  function Timespan(r: RetargetParams, parentTime: u32, firstTime: u32): nat
    requires r.minDivisor > 0
  {
    var actual := if parentTime < firstTime then 0 else parentTime - firstTime;
    Clamp(actual, Quot(r.expectedTimespan, r.minDivisor), Min(Prod(r.expectedTimespan, r.maxMultiplier), U32_MAX))
  }

  function RetargetedTarget(r: RetargetParams, parentTarget: nat, timespan: nat): nat
    requires r.expectedTimespan > 0
  {
    Min(Quot(Prod(parentTarget, timespan), r.expectedTimespan), Decode(r.maxTargetBits))
  }

  function BitsAt(p: Params, m: Headers, h: Hash): u32
    requires Known(p, m, h)
  {
    if h == p.anchor.hash then p.anchor.bits else m[h].header.bits
  }

  function TimeAt(p: Params, m: Headers, h: Hash): u32
    requires Known(p, m, h)
  {
    if h == p.anchor.hash then p.anchor.time else m[h].header.time
  }

  /** expected_bits_for_v. */
  function ExpectedBits(p: Params, m: Headers, height: nat, parent: Hash): Result<u32, BitsError>
    requires p.Usable() && Grounded(p, m)
  {
    if height == 0 then Err(HeightZero)
    else if !Known(p, m, parent) then Err(ParentUnknown)
    else if !IsMultipleOf(height, p.retarget.window) then Ok(BitsAt(p, m, parent))
    else
      var first := FirstHeight(p.kind, p.retarget.window, height);
      if first < p.anchor.height then Err(WindowBeforeAnchor)
      else
        match WalkTime(p, m, parent, first)
        case Err(e) => Err(Walk(e))
        case Ok(firstTime) =>
          var timespan := Timespan(p.retarget, TimeAt(p, m, parent), firstTime);
          Ok(Encode(RetargetedTarget(p.retarget, Decode(BitsAt(p, m, parent)), timespan)))
  }

  // ---------- one header ----------

  /** The header a batch extends next: prev_hash, prev_height and prev_work. */
  datatype Cursor = Cursor(hash: Hash, height: nat, work: nat)

  ghost predicate CursorOk(p: Params, m: Headers, cur: Cursor) {
    cur.hash == p.anchor.hash || (cur.hash in m && m[cur.hash].height == cur.height)
  }

  function Saturated(t: nat): u32 { if t > U32_MAX then U32_MAX else t }

  /** None when the bits are acceptable. A window that opens before the anchor cannot be
      recomputed, so any bits pass there. */
  function BitsReject(p: Params, m: Headers, height: nat, parent: Hash, bits: u32): Option<Reject>
    requires p.Usable() && Grounded(p, m)
  {
    match ExpectedBits(p, m, height, parent)
    case Err(WindowBeforeAnchor) => None
    case Err(e) => Some(BadBits(e))
    case Ok(expected) =>
      if Decode(bits) != Decode(expected) then Some(BitsMismatch(expected, bits)) else None
  }

  /** The checks one header goes through, in the source's order. `m` holds the committed
      headers and those staged before this one. */
  function CheckHeader(p: Params, committed: Headers, m: Headers, cur: Cursor, h: Header, blockTime: u32)
    : Option<Reject>
    requires p.Usable() && Grounded(p, m)
  {
    if h.prevHash != cur.hash then Some(NotLinked)
    else if p.blockHash(h) in committed then Some(AlreadyKnown)
    else if p.blockHash(h) in m then Some(Duplicated)
    else if p.kind.Btc? && !p.MeetsPow(h) then Some(FailsPow)
    else
      var bits := BitsReject(p, m, cur.height + 1, cur.hash, h.bits);
      if bits.Some? then bits
      else if h.time <= Mtp(p, m, cur.hash) then Some(NotAboveMtp(Mtp(p, m, cur.hash)))
      else if h.time > Saturated(blockTime + MAX_FUTURE_SECS) then Some(TooFarAhead)
      else None
  }

  /** The cursor after header h. */
  function Next(p: Params, cur: Cursor, h: Header): Cursor {
    Cursor(p.blockHash(h), cur.height + 1, cur.work + Work(h.bits))
  }

  function EntryFor(cur: Cursor, h: Header): Entry {
    Entry(h, cur.height + 1, cur.work + Work(h.bits))
  }

  lemma GroundedGrows(p: Params, m: Headers, cur: Cursor, h: Header)
    requires Grounded(p, m) && CursorOk(p, m, cur)
    requires h.prevHash == cur.hash && p.blockHash(h) !in m
    ensures Grounded(p, m[p.blockHash(h) := EntryFor(cur, h)])
    ensures CursorOk(p, m[p.blockHash(h) := EntryFor(cur, h)], Next(p, cur, h))
  {
    var m' := m[p.blockHash(h) := EntryFor(cur, h)];
    forall x | x in m' && x != p.anchor.hash
      ensures GroundedAt(p, m', x)
    {
      if x != p.blockHash(h) { assert GroundedAt(p, m, x); }
    }
  }

  // ---------- one batch ----------

  datatype Staged = Staged(hash: Hash, entry: Entry)

  function InsertAll(m: Headers, staged: seq<Staged>): Headers {
    if staged == [] then m else
      var last := staged[|staged| - 1];
      InsertAll(m, staged[..|staged| - 1])[last.hash := last.entry]
  }

  function InsertHeights(heights: map<Hash, nat>, staged: seq<Staged>): map<Hash, nat> {
    if staged == [] then heights else
      var last := staged[|staged| - 1];
      InsertHeights(heights, staged[..|staged| - 1])[last.hash := last.entry.height]
  }

  lemma InsertAllSnoc(m: Headers, staged: seq<Staged>, x: Staged)
    ensures InsertAll(m, staged + [x]) == InsertAll(m, staged)[x.hash := x.entry]
  {
    assert (staged + [x])[..|staged|] == staged;
  }

  lemma InsertHeightsSnoc(heights: map<Hash, nat>, staged: seq<Staged>, x: Staged)
    ensures InsertHeights(heights, staged + [x]) == InsertHeights(heights, staged)[x.hash := x.entry.height]
  {
    assert (staged + [x])[..|staged|] == staged;
  }

  /** Validation of the headers that are new, each against everything before it. */
  function Stage(p: Params, committed: Headers, staged: seq<Staged>, cur: Cursor,
                 headers: seq<Header>, index: nat, blockTime: u32): Result<seq<Staged>, Error>
    requires p.Usable() && Grounded(p, InsertAll(committed, staged))
    requires CursorOk(p, InsertAll(committed, staged), cur)
    decreases |headers|
  {
    if headers == [] then Ok(staged) else
      var m, h := InsertAll(committed, staged), headers[0];
      match CheckHeader(p, committed, m, cur, h, blockTime)
      case Some(reason) => Err(Rejected(index, reason))
      case None =>
        var x := Staged(p.blockHash(h), EntryFor(cur, h));
        InsertAllSnoc(committed, staged, x);
        GroundedGrows(p, m, cur, h);
        Stage(p, committed, staged + [x], Next(p, cur, h), headers[1..], index + 1, blockTime)
  }

  /** Whether h is stored where the cursor says it should be. */
  predicate Stored(p: Params, m: Headers, cur: Cursor, h: Header) {
    h.prevHash == cur.hash && p.blockHash(h) in m &&
    m[p.blockHash(h)].height == cur.height + 1 && m[p.blockHash(h)].header == h
  }

  /** The longest prefix of the batch that is stored already, and the cursor behind it. */
  function KnownPrefix(p: Params, m: Headers, cur: Cursor, headers: seq<Header>): (r: (nat, Cursor))
    ensures r.0 <= |headers|
    ensures CursorOk(p, m, cur) ==> CursorOk(p, m, r.1)
    decreases |headers|
  {
    if headers == [] || !Stored(p, m, cur, headers[0]) then (0, cur) else
      var hash := p.blockHash(headers[0]);
      var (k, last) := KnownPrefix(p, m, Cursor(hash, cur.height + 1, m[hash].totalWork), headers[1..]);
      (k + 1, last)
  }

  /** The idempotency probe that only the Bitcoin relay runs. */
  predicate AllKnown(p: Params, m: Headers, cur: Cursor, headers: seq<Header>)
    decreases |headers|
  {
    headers == [] ||
    (Stored(p, m, cur, headers[0]) &&
     AllKnown(p, m, Cursor(p.blockHash(headers[0]), cur.height + 1, cur.work), headers[1..]))
  }

  /** Where a batch whose first header names `prev` starts. */
  function Start(p: Params, m: Headers, prev: Hash): (r: Option<Cursor>)
    ensures r.Some? ==> r.value.hash == prev && CursorOk(p, m, r.value)
    ensures r.Some? <==> Known(p, m, prev)
  {
    if prev == p.anchor.hash then Some(Cursor(prev, p.anchor.height, Work(p.anchor.bits)))
    else if prev in m then Some(Cursor(prev, m[prev].height, m[prev].totalWork))
    else None
  }

  function FirstPowFailure(p: Params, headers: seq<Header>): (i: nat)
    ensures i <= |headers|
    ensures forall j | 0 <= j < i :: p.MeetsPow(headers[j])
    ensures i < |headers| ==> !p.MeetsPow(headers[i])
  {
    if headers == [] || !p.MeetsPow(headers[0]) then 0 else 1 + FirstPowFailure(p, headers[1..])
  }

  /** Errors found before any state is read. */
  function Precheck(p: Params, headers: seq<Header>): Option<Error> {
    if headers == [] then Some(EmptyBatch)
    else if p.kind.Ltc? && |headers| > MAX_LTC_BATCH then Some(TooManyHeaders)
    else if p.anchor.IsZero() then Some(AnchorNotConfigured)
    else if p.kind.Ltc? && FirstPowFailure(p, headers) < |headers| then
      Some(Rejected(FirstPowFailure(p, headers), FailsPow))
    else None
  }

  /** The work a new branch has to beat. */
  function TipWork(p: Params, m: Headers, tip: Option<Hash>): nat {
    match tip
    case None => Work(p.anchor.bits)
    case Some(h) => if h in m then m[h].totalWork else 0
  }

  function Hashes(staged: seq<Staged>): seq<Hash> {
    seq(|staged|, i requires 0 <= i < |staged| => staged[i].hash)
  }

  function Commit(p: Params, st: State, staged: seq<Staged>): Applied
    requires staged != []
  {
    var last := staged[|staged| - 1];
    var m := InsertAll(st.headers, staged);
    var heights := InsertHeights(st.heights, staged);
    var update := Update(st.tip, st.tipHeight, Hashes(staged));
    if last.entry.totalWork > TipWork(p, m, st.tip)
    then Applied(State(m, heights, Some(last.hash), last.entry.height), update)
    else Applied(State(m, heights, st.tip, st.tipHeight), update)
  }

  function NoChange(st: State): Applied {
    Applied(st, Update(st.tip, st.tipHeight, []))
  }

  lemma {:induction false} StageGrows(p: Params, committed: Headers, staged: seq<Staged>, cur: Cursor,
                                      headers: seq<Header>, index: nat, blockTime: u32)
    requires p.Usable() && Grounded(p, InsertAll(committed, staged))
    requires CursorOk(p, InsertAll(committed, staged), cur)
    ensures var r := Stage(p, committed, staged, cur, headers, index, blockTime);
            r.Ok? ==> |r.value| == |staged| + |headers| && staged <= r.value
    decreases |headers|
  {
    if headers != [] {
      var m, h := InsertAll(committed, staged), headers[0];
      if CheckHeader(p, committed, m, cur, h, blockTime).None? {
        var x := Staged(p.blockHash(h), EntryFor(cur, h));
        InsertAllSnoc(committed, staged, x);
        GroundedGrows(p, m, cur, h);
        StageGrows(p, committed, staged + [x], Next(p, cur, h), headers[1..], index + 1, blockTime);
      }
    }
  }

  lemma {:induction false} StageGrounded(p: Params, committed: Headers, staged: seq<Staged>, cur: Cursor,
                                         headers: seq<Header>, index: nat, blockTime: u32)
    requires p.Usable() && Grounded(p, InsertAll(committed, staged))
    requires CursorOk(p, InsertAll(committed, staged), cur)
    ensures var r := Stage(p, committed, staged, cur, headers, index, blockTime);
            r.Ok? ==> Grounded(p, InsertAll(committed, r.value))
    decreases |headers|
  {
    if headers != [] {
      var m, h := InsertAll(committed, staged), headers[0];
      if CheckHeader(p, committed, m, cur, h, blockTime).None? {
        var x := Staged(p.blockHash(h), EntryFor(cur, h));
        InsertAllSnoc(committed, staged, x);
        GroundedGrows(p, m, cur, h);
        StageGrounded(p, committed, staged + [x], Next(p, cur, h), headers[1..], index + 1, blockTime);
      }
    }
  }

  /** apply_btc_header_batch and apply_ltc_header_batch. */
  function Apply(p: Params, st: State, headers: seq<Header>, blockTime: u32): Result<Applied, Error>
    requires p.Usable() && Grounded(p, st.headers)
  {
    if Precheck(p, headers).Some? then Err(Precheck(p, headers).value)
    else
      match Start(p, st.headers, headers[0].prevHash)
      case None => Err(NotConnected)
      case Some(start) =>
        var (k, cur) := KnownPrefix(p, st.headers, start, headers);
        if k == |headers| then Ok(NoChange(st))
        else if k > 0 && cur.height < st.tipHeight then Err(NonTipFork)
        else
          StageGrows(p, st.headers, [], cur, headers[k..], k, blockTime);
          match Stage(p, st.headers, [], cur, headers[k..], k, blockTime)
          case Err(e) => Err(e)
          case Ok(staged) => Ok(Commit(p, st, staged))
  }

  /** undo_btc_relay_update and undo_ltc_relay_update. */
  function Undo(st: State, u: Update): State {
    var gone := set h | h in u.headersAdded;
    State(st.headers - gone, st.heights - gone, u.tipBefore, u.tipHeightBefore)
  }
}
