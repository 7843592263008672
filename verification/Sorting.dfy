/** Sorting by an order given as a predicate, and the byte-wise order of arrays in Rust. */
module Sorting {
  import opened Basics

  ghost predicate Preorder<T(!new)>(leq: (T, T) -> bool) {
    (forall x, y :: leq(x, y) || leq(y, x)) &&
    (forall x, y, z :: leq(x, y) && leq(y, z) ==> leq(x, z))
  }

  ghost predicate TotalOrder<T(!new)>(leq: (T, T) -> bool) {
    Preorder(leq) && (forall x, y :: leq(x, y) && leq(y, x) ==> x == y)
  }

  predicate SortedBy<T>(leq: (T, T) -> bool, s: seq<T>) {
    forall i, j | 0 <= i < j < |s| :: leq(s[i], s[j])
  }

  function InsertBy<T>(leq: (T, T) -> bool, x: T, s: seq<T>): (r: seq<T>)
    ensures multiset(r) == multiset(s) + multiset{x}
    decreases |s|
  {
    if s == [] then [x]
    else if leq(x, s[0]) then
      [x] + s
    else
      assert s == [s[0]] + s[1..];
      [s[0]] + InsertBy(leq, x, s[1..])
  }

  function SortBy<T>(leq: (T, T) -> bool, s: seq<T>): (r: seq<T>)
    ensures multiset(r) == multiset(s)
    decreases |s|
  {
    if s == [] then []
    else
      assert s == [s[0]] + s[1..];
      InsertBy(leq, s[0], SortBy(leq, s[1..]))
  }

  lemma {:induction false} InsertBySorted<T(!new)>(leq: (T, T) -> bool, x: T, s: seq<T>)
    requires Preorder(leq) && SortedBy(leq, s)
    ensures SortedBy(leq, InsertBy(leq, x, s))
    decreases |s|
  {
    if s == [] || leq(x, s[0]) {
    } else {
      var rest := InsertBy(leq, x, s[1..]);
      InsertBySorted(leq, x, s[1..]);
      forall y | y in rest
        ensures leq(s[0], y)
      {
        assert y in multiset(rest);
        if y != x { assert y in s[1..]; }
      }
    }
  }

  lemma {:induction false} SortBySorted<T(!new)>(leq: (T, T) -> bool, s: seq<T>)
    requires Preorder(leq)
    ensures SortedBy(leq, SortBy(leq, s))
    decreases |s|
  {
    if s == [] {
    } else {
      SortBySorted(leq, s[1..]);
      InsertBySorted(leq, s[0], SortBy(leq, s[1..]));
    }
  }

  /** A multiset has one sorted arrangement, so the sorting algorithm is of no consequence. */
  lemma {:induction false} SortedUnique<T(!new)>(leq: (T, T) -> bool, a: seq<T>, b: seq<T>)
    requires TotalOrder(leq) && SortedBy(leq, a) && SortedBy(leq, b) && multiset(a) == multiset(b)
    ensures a == b
    decreases |a|
  {
    if a == [] {
      assert |multiset(b)| == 0;
    } else {
      FirstsEqual(leq, a, b);
      assert a == [a[0]] + a[1..] && multiset(a) == multiset(a[1..]) + multiset{a[0]};
      assert b == [b[0]] + b[1..] && multiset(b) == multiset(b[1..]) + multiset{a[0]};
      Cancel(multiset(a[1..]), multiset(b[1..]), a[0]);
      hide TotalOrder;
      SortedUnique(leq, a[1..], b[1..]);
    }
  }

  lemma FirstsEqual<T(!new)>(leq: (T, T) -> bool, a: seq<T>, b: seq<T>)
    requires TotalOrder(leq) && SortedBy(leq, a) && SortedBy(leq, b) && multiset(a) == multiset(b) && a != []
    ensures b != [] && a[0] == b[0]
  {
    assert a[0] in multiset(b);
    assert b != [];
    assert b[0] in multiset(a);
    var i :| 0 <= i < |b| && b[i] == a[0];
    var j :| 0 <= j < |a| && a[j] == b[0];
    assert leq(a[0], a[0]);
  }

  // ---------- byte-wise order ----------

  predicate LexLeq(a: seq<byte>, b: seq<byte>)
    decreases |a|
  {
    a == [] || (b != [] && (a[0] < b[0] || (a[0] == b[0] && LexLeq(a[1..], b[1..]))))
  }

  lemma {:induction false} LexTotal(a: seq<byte>, b: seq<byte>)
    ensures LexLeq(a, b) || LexLeq(b, a)
    ensures LexLeq(a, b) && LexLeq(b, a) ==> a == b
    decreases |a|
  {
    if a == [] || b == [] {
    } else {
      LexTotal(a[1..], b[1..]);
      assert a == [a[0]] + a[1..] && b == [b[0]] + b[1..];
    }
  }

  lemma {:induction false} LexTransitive(a: seq<byte>, b: seq<byte>, c: seq<byte>)
    requires LexLeq(a, b) && LexLeq(b, c)
    ensures LexLeq(a, c)
    decreases |a|
  {
    if a == [] || a[0] < b[0] || b[0] < c[0] {
    } else {
      LexTransitive(a[1..], b[1..], c[1..]);
    }
  }

  lemma LexIsOrder()
    ensures TotalOrder(LexLeq)
  {
    forall a, b
      ensures (LexLeq(a, b) || LexLeq(b, a)) && (LexLeq(a, b) && LexLeq(b, a) ==> a == b)
    {
      LexTotal(a, b);
    }
    forall a, b, c | LexLeq(a, b) && LexLeq(b, c)
      ensures LexLeq(a, c)
    {
      LexTransitive(a, b, c);
    }
  }

  /** a and b first differ at k, and a has the smaller byte there. */
  ghost predicate SmallerAt(a: seq<byte>, b: seq<byte>, k: nat) {
    k < |a| && k < |b| && a[..k] == b[..k] && a[k] < b[k]
  }

  /** a comes before b: a is a proper start of b, or has the smaller byte where they first differ. */
  ghost predicate Precedes(a: seq<byte>, b: seq<byte>) {
    a < b || exists k: nat :: SmallerAt(a, b, k)
  }

  lemma {:induction false} LexExact(a: seq<byte>, b: seq<byte>)
    ensures LexLeq(a, b) <==> a == b || Precedes(a, b)
    decreases |a|
  {
    if a == [] || b == [] {
    } else if a[0] != b[0] {
      FirstDiffers(a, b);
    } else {
      LexExact(a[1..], b[1..]);
      PrecedesRest(a, b);
    }
  }

  lemma FirstDiffers(a: seq<byte>, b: seq<byte>)
    requires a != [] && b != [] && a[0] != b[0]
    ensures Precedes(a, b) <==> a[0] < b[0]
  {
    if a[0] < b[0] {
      assert SmallerAt(a, b, 0);
    }
    forall k: nat | k > 0
      ensures !SmallerAt(a, b, k)
    {
      if k <= |a| && k <= |b| { assert a[..k][0] != b[..k][0]; }
    }
  }

  lemma SmallerShifts(a: seq<byte>, b: seq<byte>, k: nat)
    requires a != [] && b != [] && a[0] == b[0]
    ensures SmallerAt(a, b, k + 1) <==> SmallerAt(a[1..], b[1..], k)
    ensures !SmallerAt(a, b, 0)
  {
    if k + 1 < |a| && k + 1 < |b| {
      assert a[..k + 1] == [a[0]] + a[1..][..k] && b[..k + 1] == [b[0]] + b[1..][..k];
      assert a[..k + 1][1..] == a[1..][..k] && b[..k + 1][1..] == b[1..][..k];
    }
  }

  lemma PrecedesRest(a: seq<byte>, b: seq<byte>)
    requires a != [] && b != [] && a[0] == b[0]
    ensures Precedes(a, b) <==> Precedes(a[1..], b[1..])
    ensures a == b <==> a[1..] == b[1..]
  {
    assert a == [a[0]] + a[1..] && b == [b[0]] + b[1..];
    hide SmallerAt;
    SmallerShifts(a, b, 0);
    if k: nat :| SmallerAt(a, b, k) { SmallerShifts(a, b, k - 1); }
    if k: nat :| SmallerAt(a[1..], b[1..], k) { SmallerShifts(a, b, k); }
  }

  lemma NotBefore(a: seq<byte>, b: seq<byte>)
    ensures LexLeq(a, b) <==> !Precedes(b, a)
  {
    LexExact(a, b);
    LexExact(b, a);
    LexTotal(a, b);
    if a == b { PrecedesNotItself(a); }
    hide Precedes, LexLeq;
  }

  lemma PrecedesNotItself(a: seq<byte>)
    ensures !Precedes(a, a)
  {}

  /** Byte strings put together field by field compare field by field. */
  lemma {:induction false} LexConcat(a: seq<byte>, b: seq<byte>, a': seq<byte>, b': seq<byte>)
    requires |a| == |a'|
    ensures LexLeq(a + b, a' + b') <==> (if a == a' then LexLeq(b, b') else LexLeq(a, a'))
    decreases |a|
  {
    if a == [] {
      assert a + b == b && a' + b' == b';
    } else {
      assert (a + b)[1..] == a[1..] + b && (a' + b')[1..] == a'[1..] + b';
      assert a == [a[0]] + a[1..] && a' == [a'[0]] + a'[1..];
      LexConcat(a[1..], b, a'[1..], b');
    }
  }

  // ---------- mapped sequences ----------

  function Map<T, U>(g: T -> U, s: seq<T>): (r: seq<U>)
    ensures |r| == |s| && forall i | 0 <= i < |s| :: r[i] == g(s[i])
  {
    seq(|s|, i requires 0 <= i < |s| => g(s[i]))
  }

  /** Two elements, one from each list, that differ and have the same image. */
  ghost predicate Merged<T, U>(g: T -> U, xs: seq<T>, ys: seq<T>) {
    exists i, j :: 0 <= i < |xs| && 0 <= j < |ys| && xs[i] != ys[j] && g(xs[i]) == g(ys[j])
  }

  function Without<T>(s: seq<T>, j: nat): (r: seq<T>)
    requires j < |s|
    ensures |r| == |s| - 1
    ensures multiset(s) == multiset(r) + multiset{s[j]}
  {
    assert s == s[..j] + [s[j]] + s[j + 1..];
    s[..j] + s[j + 1..]
  }

  lemma SameMembers<T(!new)>(a: seq<T>, b: seq<T>)
    requires multiset(a) == multiset(b)
    ensures forall x :: x in a <==> x in b
  {
    forall x
      ensures x in a <==> x in b
    {
      assert x in multiset(a) <==> x in multiset(b);
    }
  }

  lemma TwiceIn<T>(s: seq<T>, i: nat, j: nat)
    requires i < j < |s| && s[i] == s[j]
    ensures multiset(s)[s[i]] >= 2
  {
    assert s == s[..i] + [s[i]] + s[i + 1..j] + [s[j]] + s[j + 1..];
  }

  lemma Cancel<T>(a: multiset<T>, b: multiset<T>, x: T)
    requires a + multiset{x} == b + multiset{x}
    ensures a == b
  {
    assert a == (a + multiset{x}) - multiset{x};
    assert b == (b + multiset{x}) - multiset{x};
  }

  lemma MapWithout<T, U>(g: T -> U, s: seq<T>, j: nat)
    requires j < |s|
    ensures multiset(Map(g, s)) == multiset(Map(g, Without(s, j))) + multiset{g(s[j])}
  {
    assert Without(Map(g, s), j) == Map(g, Without(s, j));
  }

  lemma {:induction false} MapPermutes<T, U>(g: T -> U, xs: seq<T>, ys: seq<T>)
    requires multiset(xs) == multiset(ys)
    ensures multiset(Map(g, xs)) == multiset(Map(g, ys))
    decreases |xs|
  {
    hide Map, Without;
    assert |multiset(xs)| == |multiset(ys)|;
    if xs == [] {
      assert ys == [];
    } else {
      assert xs[0] in multiset(ys);
      var j :| 0 <= j < |ys| && ys[j] == xs[0];
      Cancel(multiset(Without(xs, 0)), multiset(Without(ys, j)), xs[0]);
      MapPermutes(g, Without(xs, 0), Without(ys, j));
      MapWithout(g, xs, 0);
      MapWithout(g, ys, j);
    }
  }

  /** Lists with the same images hold the same elements, unless the map merges two of them. */
  lemma {:induction false} MapReflects<T, U>(g: T -> U, xs: seq<T>, ys: seq<T>)
    requires multiset(Map(g, xs)) == multiset(Map(g, ys)) && !Merged(g, xs, ys)
    ensures multiset(xs) == multiset(ys)
    decreases |xs|
  {
    hide Map, Without;
    assert |multiset(Map(g, xs))| == |multiset(Map(g, ys))|;
    if xs == [] {
      assert ys == [];
    } else {
      var j := SameImage(g, xs, ys);
      MapWithout(g, xs, 0);
      MapWithout(g, ys, j);
      Cancel(multiset(Map(g, Without(xs, 0))), multiset(Map(g, Without(ys, j))), g(xs[0]));
      StillApart(g, xs, ys, j);
      hide Merged;
      MapReflects(g, Without(xs, 0), Without(ys, j));
    }
  }

  lemma SameImage<T, U>(g: T -> U, xs: seq<T>, ys: seq<T>) returns (j: nat)
    requires xs != [] && multiset(Map(g, xs)) == multiset(Map(g, ys)) && !Merged(g, xs, ys)
    ensures j < |ys| && ys[j] == xs[0]
  {
    assert Map(g, xs)[0] in multiset(Map(g, ys));
    j :| 0 <= j < |Map(g, ys)| && Map(g, ys)[j] == g(xs[0]);
  }

  lemma StillApart<T, U>(g: T -> U, xs: seq<T>, ys: seq<T>, j: nat)
    requires xs != [] && j < |ys| && !Merged(g, xs, ys)
    ensures !Merged(g, Without(xs, 0), Without(ys, j))
  {
    var some, rest := Without(xs, 0), Without(ys, j);
    forall i, k | 0 <= i < |some| && 0 <= k < |rest| && some[i] != rest[k]
      ensures g(some[i]) != g(rest[k])
    {
      var m := if k < j then k else k + 1;
      assert xs[i + 1] == some[i] && ys[m] == rest[k];
    }
  }
}
