/** Reading byte strings from a cursor: a reader takes the bytes from the cursor on and answers
    with a value and how many bytes it used. */
module Reading {
  import opened Basics

  type Bytes = seq<byte>

  datatype Read<+T> = Read(value: T, used: nat)

  /** A little-endian number of n bytes. */
  function Number(s: Bytes, n: nat): (r: Option<Read<nat>>)
    ensures r.Some? ==> r.value.used == n <= |s|
  {
    if |s| < n then None else Some(Read(LeValue(s[..n]), n))
  }

  lemma NumberBytes(s: Bytes, n: nat)
    requires Number(s, n).Some?
    ensures LeBytes(Number(s, n).value.value, n) == s[..n]
    ensures Number(s, n).value.value < Pow256(n)
  {
    hide LeBytes, LeValue;
    LeBytesOfValue(s[..n]);
  }

  function Word32(b: Bytes): u32
    requires |b| == 4
  {
    Pow256Values();
    LeBytesOfValue(b);
    LeValue(b)
  }

  function Word64(b: Bytes): u64
    requires |b| == 8
  {
    Pow256Values();
    LeBytesOfValue(b);
    LeValue(b)
  }

  lemma Word32Back(n: u32)
    ensures Word32(LeBytes(n, 4)) == n
  {
    Pow256Values();
    LeRoundTrip(n, 4);
  }

  lemma Word64Back(n: u64)
    ensures Word64(LeBytes(n, 8)) == n
  {
    Pow256Values();
    LeRoundTrip(n, 8);
  }

  lemma Word64Bytes(b: Bytes)
    requires |b| == 8
    ensures LeBytes(Word64(b), 8) == b
  {
    LeBytesOfValue(b);
  }

  // ---------- variable-length counts ----------

  function VarintBytes(n: u64): Bytes {
    if n < 0xfd then [n]
    else if n <= 0xffff then [0xfd] + LeBytes(n, 2)
    else if n <= 0xffff_ffff then [0xfe] + LeBytes(n, 4)
    else [0xff] + LeBytes(n, 8)
  }

  /** Longer forms than needed are accepted. */
  function Varint(s: Bytes): (r: Option<Read<nat>>)
    ensures r.Some? ==> 1 <= r.value.used <= |s|
  {
    if s == [] then None
    else if s[0] == 0xff then Tagged(s, 8)
    else if s[0] == 0xfe then Tagged(s, 4)
    else if s[0] == 0xfd then Tagged(s, 2)
    else Some(Read(s[0], 1))
  }

  function Tagged(s: Bytes, n: nat): (r: Option<Read<nat>>)
    requires s != []
    ensures r.Some? ==> r.value.used == 1 + n <= |s|
  {
    match Number(s[1..], n)
    case None => None
    case Some(r) => Some(Read(r.value, 1 + n))
  }

  lemma WideVarint(first: byte, n: nat, width: nat, t: Bytes)
    requires n < Pow256(width)
    ensures var s := ([first] + LeBytes(n, width)) + t;
            s[0] == first && Number(s[1..], width) == Some(Read(n, width))
  {
    hide LeBytes, LeValue;
    var s := ([first] + LeBytes(n, width)) + t;
    LeRoundTrip(n, width);
    assert s[1..] == LeBytes(n, width) + t;
    assert s[1..][..width] == LeBytes(n, width);
  }

  lemma VarintRoundTrip(n: u64, t: Bytes)
    ensures Varint(VarintBytes(n) + t) == Some(Read(n as nat, |VarintBytes(n)|))
  {
    hide LeBytes, Number;
    Pow256Values();
    if n < 0xfd {
    } else if n <= 0xffff {
      WideVarint(0xfd, n, 2, t);
    } else if n <= 0xffff_ffff {
      WideVarint(0xfe, n, 4, t);
    } else {
      WideVarint(0xff, n, 8, t);
    }
  }

  lemma VarintSmall(s: Bytes)
    requires Varint(s).Some?
    ensures Varint(s).value.value < 0x1_0000_0000_0000_0000
  {
    hide LeBytes, LeValue;
    Pow256Values();
    if s[0] >= 0xfd {
      NumberBytes(s[1..], if s[0] == 0xff then 8 else if s[0] == 0xfe then 4 else 2);
    }
  }

  // ---------- lists read in two stretches ----------

  function After<T>(front: seq<T>, used: nat, rest: Option<Read<seq<T>>>): Option<Read<seq<T>>> {
    match rest
    case None => None
    case Some(r) => Some(Read(front + r.value, used + r.used))
  }

  lemma AfterNothing<T>(rest: Option<Read<seq<T>>>)
    ensures After([], 0, rest) == rest
  {
    if rest.Some? { assert [] + rest.value.value == rest.value.value; }
  }

  lemma AfterOne<T>(front: seq<T>, used: nat, x: T, n: nat, rest: Option<Read<seq<T>>>)
    ensures After(front, used, After([x], n, rest)) == After(front + [x], used + n, rest)
  {
    if rest.Some? { assert front + ([x] + rest.value.value) == front + [x] + rest.value.value; }
  }

  lemma Drop(raw: Bytes, off: nat, n: nat)
    requires off + n <= |raw|
    ensures raw[off..][n..] == raw[off + n..] && raw[off..][..n] == raw[off..off + n]
  {}
}
