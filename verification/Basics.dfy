/** Machine integers, byte strings and the failure types shared by every module. */
module Basics {

  type byte = x: int | 0 <= x < 0x100
  type u16 = x: int | 0 <= x < 0x1_0000
  type u32 = x: int | 0 <= x < 0x1_0000_0000
  type u64 = x: int | 0 <= x < 0x1_0000_0000_0000_0000

  const U32_MAX: u32 := 0xffff_ffff

  datatype Option<+T> = None | Some(value: T)

  datatype Result<+T, +E> = Ok(value: T) | Err(error: E)

  /** 256 to the n: the weight of byte n in a multi-byte integer. */
  function Pow256(n: nat): (r: nat)
    ensures r > 0
  {
    if n == 0 then 1 else 256 * Pow256(n - 1)
  }

  lemma {:induction false} Pow256Add(a: nat, b: nat)
    ensures Pow256(a + b) == Pow256(a) * Pow256(b)
  {
    if a > 0 {
      Pow256Add(a - 1, b);
      assert a + b - 1 == (a - 1) + b;
    }
  }

  lemma {:induction false} Pow256Monotone(a: nat, b: nat)
    requires a <= b
    ensures Pow256(a) <= Pow256(b)
  {
    if a < b { Pow256Monotone(a, b - 1); }
  }

  /** The n low-order bytes of v, least significant first. */
  function LeBytes(v: nat, n: nat): (b: seq<byte>)
    ensures |b| == n
  {
    if n == 0 then [] else [v % 256] + LeBytes(v / 256, n - 1)
  }

  /** The integer that a little-endian byte string spells. */
  function LeValue(b: seq<byte>): nat {
    if b == [] then 0 else b[0] + 256 * LeValue(b[1..])
  }

  lemma {:induction false} LeRoundTrip(v: nat, n: nat)
    requires v < Pow256(n)
    ensures LeValue(LeBytes(v, n)) == v
  {
    if n > 0 {
      LeRoundTrip(v / 256, n - 1);
      assert LeBytes(v, n)[1..] == LeBytes(v / 256, n - 1);
    }
  }

  lemma {:induction false} LeBytesOfValue(b: seq<byte>)
    ensures LeValue(b) < Pow256(|b|)
    ensures LeBytes(LeValue(b), |b|) == b
  {
    if b != [] {
      LeBytesOfValue(b[1..]);
      assert LeValue(b) % 256 == b[0] && LeValue(b) / 256 == LeValue(b[1..]);
    }
  }

  /** A byte is worth itself, and what stands after k bytes is worth 256 to the k times as much. */
  lemma {:induction false} LeWeights(a: seq<byte>, x: byte, b: seq<byte>)
    ensures LeValue([x]) == x
    ensures LeValue(a + b) == LeValue(a) + Pow256(|a|) * LeValue(b)
  {
    if a == [] {
      assert a + b == b;
    } else {
      assert (a + b)[1..] == a[1..] + b;
      LeWeights(a[1..], x, b);
      assert 256 * (Pow256(|a| - 1) * LeValue(b)) == Pow256(|a|) * LeValue(b);
    }
  }

  lemma Pow256Values()
    ensures Pow256(1) == 0x100 && Pow256(2) == 0x1_0000 && Pow256(3) == 0x100_0000
    ensures Pow256(4) == 0x1_0000_0000 && Pow256(8) == 0x1_0000_0000_0000_0000
  {
    assert Pow256(2) == 256 * Pow256(1);
    assert Pow256(3) == 256 * Pow256(2);
    assert Pow256(4) == 256 * Pow256(3);
    assert Pow256(5) == 256 * Pow256(4);
    assert Pow256(6) == 256 * Pow256(5);
    assert Pow256(7) == 256 * Pow256(6);
    assert Pow256(8) == 256 * Pow256(7);
  }

  lemma Pow256Hash()
    ensures Pow256(32) == 0x1_0000_0000_0000_0000_0000_0000_0000_0000_0000_0000_0000_0000_0000_0000_0000_0000
  {
    hide Pow256;
    Pow256Values();
    Pow256Add(8, 8);
    Pow256Add(16, 16);
  }
}
