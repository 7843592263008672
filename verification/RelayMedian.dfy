/** Median time past along stored branches. */
module RelayMedian {
  import opened Basics
  import opened RelayModel
  import opened RelayTree

  // ---------- the sort and its order statistics ----------

  ghost predicate Sorted(s: seq<u32>) {
    forall i, j | 0 <= i < j < |s| :: s[i] <= s[j]
  }

  lemma {:induction false} InsertAbove(x: u32, s: seq<u32>, lo: u32)
    requires lo <= x && forall i | 0 <= i < |s| :: lo <= s[i]
    ensures forall i | 0 <= i < |Insert(x, s)| :: lo <= Insert(x, s)[i]
  {
    if !(s == [] || x <= s[0]) { InsertAbove(x, s[1..], lo); }
  }

  lemma {:induction false} InsertSorts(x: u32, s: seq<u32>)
    requires Sorted(s)
    ensures Sorted(Insert(x, s))
  {
    if !(s == [] || x <= s[0]) {
      InsertSorts(x, s[1..]);
      InsertAbove(x, s[1..], s[0]);
    }
  }

  lemma {:induction false} InsertContents(x: u32, s: seq<u32>)
    ensures multiset(Insert(x, s)) == multiset(s) + multiset{x}
  {
    if !(s == [] || x <= s[0]) {
      InsertContents(x, s[1..]);
      assert s == [s[0]] + s[1..];
    }
  }

  /** Sort is the sorted permutation of its input. */
  lemma {:induction false} SortSorts(s: seq<u32>)
    ensures Sorted(Sort(s)) && multiset(Sort(s)) == multiset(s)
  {
    if s != [] {
      SortSorts(s[1..]);
      InsertSorts(s[0], Sort(s[1..]));
      InsertContents(s[0], Sort(s[1..]));
      assert s == [s[0]] + s[1..];
    }
  }

  function CountBelow(s: seq<u32>, v: u32): nat {
    if s == [] then 0 else (if s[0] < v then 1 else 0) + CountBelow(s[1..], v)
  }

  lemma {:induction false} CountInsert(x: u32, s: seq<u32>, v: u32)
    ensures CountBelow(Insert(x, s), v) == CountBelow(s, v) + (if x < v then 1 else 0)
  {
    if !(s == [] || x <= s[0]) {
      CountInsert(x, s[1..], v);
      assert ([s[0]] + Insert(x, s[1..]))[1..] == Insert(x, s[1..]);
    } else {
      assert ([x] + s)[1..] == s;
    }
  }

  lemma {:induction false} CountSort(s: seq<u32>, v: u32)
    ensures CountBelow(Sort(s), v) == CountBelow(s, v)
  {
    if s != [] {
      CountSort(s[1..], v);
      CountInsert(s[0], Sort(s[1..]), v);
    }
  }

  /** In a sorted list, the element at index k is at least v exactly when at most k elements are below v. */
  lemma {:induction false} SortedRank(s: seq<u32>, k: nat, v: u32)
    requires Sorted(s) && k < |s|
    ensures s[k] >= v <==> CountBelow(s, v) <= k
  {
    if s[0] >= v {
      CountNone(s, v);
    } else if k > 0 {
      SortedRank(s[1..], k - 1, v);
    }
  }

  lemma {:induction false} CountNone(s: seq<u32>, v: u32)
    requires forall i | 0 <= i < |s| :: s[i] >= v
    ensures CountBelow(s, v) == 0
  {
    if s != [] { CountNone(s[1..], v); }
  }

  /** The median is at least v exactly when at most half the times are below v. */
  lemma MedianRank(times: seq<u32>, v: u32)
    requires times != []
    ensures Median(times) >= v <==> CountBelow(times, v) <= |times| / 2
  {
    SortLength(times);
    SortSorts(times);
    CountSort(times, v);
    SortedRank(Sort(times), |times| / 2, v);
  }

  lemma {:induction false} CountPrefix(s: seq<u32>, n: nat, v: u32)
    requires n <= |s|
    ensures CountBelow(s[..n], v) <= CountBelow(s, v)
  {
    if n > 0 {
      CountPrefix(s[1..], n - 1, v);
      assert s[..n][1..] == s[1..][..n - 1];
    }
  }

  /** A new time above the median, pushed in front of a window that may lose its oldest time,
      does not lower the median. */
  lemma MedianPush(times: seq<u32>, n: nat, t: u32)
    requires times != [] && n <= |times| <= n + 1 && t > Median(times)
    ensures Median([t] + times[..n]) >= Median(times)
  {
    var v := Median(times);
    var next := [t] + times[..n];
    MedianRank(times, v);
    CountPrefix(times, n, v);
    assert next[1..] == times[..n];
    MedianRank(next, v);
  }

  // ---------- along a branch ----------

  lemma {:induction false} TimesBackPrefix(p: Params, m: Headers, h: Hash, n: nat)
    ensures var shorter, longer := TimesBack(p, m, h, n), TimesBack(p, m, h, n + 1);
            |shorter| <= |longer| <= |shorter| + 1 && shorter == longer[..|shorter|]
    decreases n
  {
    if n > 0 && h != p.anchor.hash && h in m {
      TimesBackPrefix(p, m, m[h].header.prevHash, n - 1);
    }
  }

  /** The median time past at a stored header is at least the one at its parent, in short windows
      near the anchor and in full ones alike. */
  lemma MtpStep(p: Params, m: Headers, h: Hash)
    requires Tree(p, m) && h in m
    ensures Mtp(p, m, m[h].header.prevHash) <= Mtp(p, m, h)
  {
    assert RuleOk(p, m, h) && LinkOk(p, m, h);
    PushStep(p, m, h, MTP_WINDOW - 1);
  }

  lemma PushStep(p: Params, m: Headers, h: Hash, n: nat)
    requires h in m && h != p.anchor.hash && Known(p, m, m[h].header.prevHash)
    requires m[h].header.time > Median(TimesBack(p, m, m[h].header.prevHash, n + 1))
    ensures Median(TimesBack(p, m, h, n + 1)) >= Median(TimesBack(p, m, m[h].header.prevHash, n + 1))
  {
    var q := m[h].header.prevHash;
    TimesBackPrefix(p, m, q, n);
    MedianPush(TimesBack(p, m, q, n + 1), |TimesBack(p, m, q, n)|, m[h].header.time);
  }

  /** The header n steps below h; the anchor is below everything. */
  function Back(p: Params, m: Headers, h: Hash, n: nat): Option<Hash>
    decreases n
  {
    if !Known(p, m, h) then None
    else if n == 0 then Some(h)
    else if h == p.anchor.hash then None
    else Back(p, m, m[h].header.prevHash, n - 1)
  }

  /** Median time past never decreases along a stored branch. */
  lemma {:induction false} MtpMonotone(p: Params, m: Headers, h: Hash, n: nat)
    requires Tree(p, m) && Back(p, m, h, n).Some?
    ensures Mtp(p, m, Back(p, m, h, n).value) <= Mtp(p, m, h)
    decreases n
  {
    hide Mtp, RuleOk, LinkOk, GroundedAt;
    if n > 0 {
      MtpStep(p, m, h);
      MtpMonotone(p, m, m[h].header.prevHash, n - 1);
    }
  }

  lemma TimeAboveParent(p: Params, m: Headers, h: Hash)
    requires Tree(p, m) && h in m
    ensures m[h].header.time > Mtp(p, m, m[h].header.prevHash)
  {
    hide Mtp, BitsReject;
    assert RuleOk(p, m, h);
  }

  /** A stored header is later than the median at every one of its ancestors. */
  lemma TimeAboveAncestors(p: Params, m: Headers, h: Hash, n: nat)
    requires Tree(p, m) && h in m && n > 0 && Back(p, m, h, n).Some?
    ensures m[h].header.time > Mtp(p, m, Back(p, m, h, n).value)
  {
    hide Mtp, RuleOk, LinkOk;
    TimeAboveParent(p, m, h);
    MtpMonotone(p, m, m[h].header.prevHash, n - 1);
  }
}
