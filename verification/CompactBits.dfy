/** Compact ("bits") difficulty targets: Target::to_target of src/pow.rs, and the
    encoder, chain-work and maximum-target arithmetic of src/btc_spv.rs and src/ltc_spv.rs. */
module CompactBits {
  import opened Basics

  const TWO_256: nat := 0x1_0000_0000_0000_0000_0000_0000_0000_0000_0000_0000_0000_0000_0000_0000_0000_0000

  /** Target::to_target. */
  function Decode(bits: u32): (target: nat) {
    Scaled(bits % 0x100_0000, bits / 0x100_0000)
  }

  function Prod(a: nat, b: nat): nat { a * b }

  function Quot(a: nat, d: nat): nat
    requires d > 0
  {
    a / d
  }

  /** A three-byte mantissa moved so that it ends `exponent` bytes from the left. */
  function Scaled(mantissa: nat, exponent: nat): nat {
    if exponent <= 3 then Quot(mantissa, Pow256(3 - exponent))
    else Prod(mantissa, Pow256(exponent - 3))
  }

  /** work_for_bits. */
  function Work(bits: u32): (work: nat) {
    TWO_256 / (Decode(bits) + 1)
  }

  /** Length of the shortest big-endian encoding of t. */
  function ByteLen(t: nat): (n: nat)
    ensures t < Pow256(n)
    ensures t > 0 ==> n > 0 && Pow256(n - 1) <= t
  {
    if t == 0 then 0 else 1 + ByteLen(t / 256)
  }

  /** The three leading bytes of t, padded on the right when t is shorter. */
  function Mantissa(t: nat): nat {
    var size := ByteLen(t);
    if size <= 3 then Prod(t, Pow256(3 - size)) else Quot(t, Pow256(size - 3))
  }

  /** target_to_compact_bits. */
  function Encode(t: nat): (bits: u32) {
    if t == 0 then 0 else
      MantissaRange(t);
      Packed(Mantissa(t), ByteLen(t))
  }

  /** Mantissa and size in one word. A mantissa with the sign bit set moves up one byte.
      The size byte wraps at 256, as the 32-bit shift does. */
  function Packed(mantissa: nat, size: nat): (bits: u32)
    requires mantissa < 0x100_0000
  {
    if mantissa < 0x80_0000 then mantissa + size % 256 * 0x100_0000
    else mantissa / 256 + (size + 1) % 256 * 0x100_0000
  }

  /** BigUint::to_bytes_be. */
  function BytesBe(t: nat): (b: seq<byte>)
    ensures |b| == ByteLen(t)
  {
    if t == 0 then [] else BytesBe(t / 256) + [t % 256]
  }

  /** The target that survives a trip through the compact form. */
  function Rounded(t: nat): nat {
    Decode(Encode(t))
  }

  /** Bits that target_to_compact_bits can produce: sign bit clear, normalised,
      and nothing in the mantissa bytes that a short exponent shifts out. */
  predicate Canonical(bits: u32) {
    bits == 0 || Normalised(bits % 0x100_0000, bits / 0x100_0000)
  }

  predicate Normalised(mantissa: nat, exponent: nat) {
    1 <= exponent && 0x8000 <= mantissa < 0x80_0000 &&
    (exponent <= 3 ==> mantissa % Pow256(3 - exponent) == 0)
  }

  // ---------- the encoder as the source runs it ----------

  /** Big-endian reading of a byte string. */
  function BeValue(b: seq<byte>): nat {
    if b == [] then 0 else BeValue(b[..|b| - 1]) * 256 + b[|b| - 1]
  }

  lemma {:induction false} BePrefix(t: nat, j: nat)
    requires j <= ByteLen(t)
    ensures BeValue(BytesBe(t)[..j]) == Quot(t, Pow256(ByteLen(t) - j))
  {
    var n := ByteLen(t);
    if t > 0 {
      if j == n {
        BePrefix(t / 256, n - 1);
        assert Pow256(0) == 1;
        hide Pow256, ByteLen;
        BeLast(t, n);
      } else {
        BePrefix(t / 256, j);
        assert BytesBe(t)[..j] == BytesBe(t / 256)[..j];
        assert Pow256(n - j) == Prod(256, Pow256(n - 1 - j));
        hide BeValue, BytesBe, Pow256, ByteLen, Prod;
        DivDiv(t, 256, Pow256(n - 1 - j));
      }
    }
  }

  lemma BeLast(t: nat, n: nat)
    requires t > 0 && n == ByteLen(t) && BeValue(BytesBe(t / 256)[..n - 1]) == Quot(t / 256, 1)
    ensures BeValue(BytesBe(t)[..n]) == Quot(t, 1)
  {
    hide ByteLen;
    var b := BytesBe(t);
    assert b[..n] == b && b[..n - 1] == BytesBe(t / 256)[..n - 1] && b[n - 1] == t % 256;
  }

  lemma BeThree(b: seq<byte>)
    requires |b| >= 3
    ensures BeValue(b[..3]) == b[0] as int * 0x1_0000 + b[1] as int * 0x100 + b[2] as int
  {
    assert b[..3][..2] == b[..2] && b[..2][..1] == b[..1] && b[..1][..0] == [];
    assert BeValue(b[..1]) == b[0];
    assert BeValue(b[..2]) == BeValue(b[..1]) * 256 + b[1];
  }

  lemma MantissaBytes(t: nat)
    requires t > 0
    ensures var b := BytesBe(t);
            Mantissa(t) == if |b| <= 3 then Prod(BeValue(b), Pow256(3 - |b|)) else BeValue(b[..3])
  {
    assert Pow256(0) == 1;
    hide BytesBe, BeValue, Pow256, ByteLen;
    var b := BytesBe(t);
    if |b| <= 3 {
      BePrefix(t, |b|);
      assert b[..|b|] == b;
    } else {
      BePrefix(t, 3);
    }
  }

  /** The first three bytes of a target, as the encoder assembles them. */
  method LeadingBytes(target: nat) returns (compact: nat)
    requires target > 0
    ensures compact == Mantissa(target)
  {
    hide Mantissa, Pow256, ByteLen, BytesBe, Prod;
    var bytes := BytesBe(target);
    if |bytes| <= 3 {
      var v: nat := 0;
      for i := 0 to |bytes|
        invariant v == BeValue(bytes[..i])
      {
        v := v * 256 + bytes[i];
        assert bytes[..i + 1][..i] == bytes[..i];
      }
      assert bytes[..|bytes|] == bytes;
      compact := Prod(v, Pow256(3 - |bytes|));
    } else {
      BeThree(bytes);
      compact := bytes[0] as int * 0x1_0000 + bytes[1] as int * 0x100 + bytes[2] as int;
    }
    MantissaBytes(target);
  }

  /** target_to_compact_bits, byte by byte. */
  method TargetToCompactBits(target: nat) returns (bits: u32)
    ensures bits == Encode(target)
  {
    hide Mantissa, ByteLen, Pow256;
    if target == 0 {
      return 0;
    }
    MantissaRange(target);
    var compact := LeadingBytes(target);
    var size := ByteLen(target);
    if compact / 0x80_0000 % 2 == 1 {
      compact := compact / 256;
      size := size + 1;
    }
    bits := compact + size % 256 * 0x100_0000;
  }

  // ---------- division by powers of 256 ----------

  lemma DivDiv(t: nat, a: nat, b: nat)
    requires a > 0 && b > 0
    ensures Prod(a, b) > 0 && t / a / b == t / Prod(a, b)
  {
    var q, r, s := t / a / b, t / a % b, t % a;
    DivParts(t, a, t / a, s);
    DivParts(t / a, b, q, r);
    hide Prod;
    Recomposed(a, b, q, r, s);
    DivUnique(t, Prod(a, b), q, r * a + s);
  }

  lemma DivParts(t: nat, d: nat, q: nat, r: nat)
    requires d > 0 && q == t / d && r == t % d
    ensures t == q * d + r && r < d
  {}

  lemma Recomposed(a: nat, b: nat, q: nat, r: nat, s: nat)
    requires r < b && s < a
    ensures (q * b + r) * a + s == q * Prod(a, b) + (r * a + s) && r * a + s < Prod(a, b)
  {
    MulMonotone(r + 1, b, a);
    assert (r + 1) * a == r * a + a;
    assert (q * b + r) * a == (q * b) * a + r * a;
    assert (q * b) * a == q * (a * b);
  }

  lemma MulSign(q: int, d: nat)
    ensures q >= 1 ==> q * d >= d
    ensures q <= -1 ==> q * d <= -(d as int)
  {}

  lemma DivUnique(t: nat, d: nat, q: nat, r: nat)
    requires d > 0 && r < d && t == q * d + r
    ensures t / d == q && t % d == r
  {
    MulSign(t / d - q, d);
  }

  lemma DivBounds(t: nat, d: nat, lo: nat, hi: nat)
    requires d > 0 && lo * d <= t < hi * d
    ensures lo <= t / d < hi
  {
    MulSign(t / d - lo, d);
    MulSign(t / d - hi, d);
  }

  lemma MulMonotone(a: nat, b: nat, d: nat)
    requires a <= b
    ensures a * d <= b * d
  {
    assert (b - a) * d >= 0;
  }

  lemma DivMonotone(a: nat, b: nat, d: nat)
    requires d > 0 && a <= b
    ensures a / d <= b / d
  {
    MulSign(a / d - b / d, d);
  }

  // ---------- the encoder against the decoder ----------

  lemma MantissaRange(t: nat)
    requires t > 0
    ensures 0x1_0000 <= Mantissa(t) < 0x100_0000
  {
    var size := ByteLen(t);
    Pow256Values();
    if size <= 3 {
      if size == 1 { assert Pow256(0) == 1; }
    } else {
      Pow256Add(2, size - 3);
      Pow256Add(3, size - 3);
      DivBounds(t, Pow256(size - 3), Pow256(2), Pow256(3));
    }
  }

  /** How many low-order bytes the compact form of t drops. */
  function Dropped(t: nat): nat {
    if t == 0 then 0 else
      var size := ByteLen(t) + (if Mantissa(t) < 0x80_0000 then 0 else 1);
      if size <= 3 then 0 else size - 3
  }

  lemma DecodeParts(mantissa: nat, exponent: nat)
    requires mantissa < 0x100_0000 && exponent < 256
    ensures Decode(mantissa + exponent * 0x100_0000) == Scaled(mantissa, exponent)
  {}

  lemma ShiftBack(t: nat, d: nat)
    requires d > 0
    ensures t * d / d == t
  {
    DivUnique(t * d, d, t, 0);
  }

  /** t rounded down to a multiple of d. */
  function Floor(t: nat, d: nat): (f: nat)
    requires d > 0
    ensures f <= t < f + d
  {
    t - t % d
  }

  lemma FloorOfQuotient(t: nat, d: nat)
    requires d > 0
    ensures t / d * d == Floor(t, d)
  {}

  lemma FloorMonotone(t: nat, t': nat, d: nat)
    requires d > 0 && t <= t'
    ensures Floor(t, d) <= Floor(t', d)
  {
    FloorOfQuotient(t, d);
    FloorOfQuotient(t', d);
    DivMonotone(t, t', d);
    MulMonotone(t / d, t' / d, d);
  }

  lemma FloorAbove(t: nat, m: nat, d: nat)
    requires d > 0 && m * d <= t
    ensures m * d <= Floor(t, d)
  {
    DivUnique(m * d, d, m, 0);
    FloorMonotone(m * d, t, d);
  }

  lemma FloorIdempotent(t: nat, d: nat)
    requires d > 0
    ensures Floor(Floor(t, d), d) == Floor(t, d)
  {
    FloorOfQuotient(t, d);
    DivUnique(t / d * d, d, t / d, 0);
  }

  /** A mantissa below the sign bit. */
  lemma ScaledPlain(t: nat)
    requires t > 0 && Mantissa(t) < 0x80_0000
    ensures Scaled(Mantissa(t), ByteLen(t)) == Floor(t, Pow256(Dropped(t)))
  {
    var size := ByteLen(t);
    if size <= 3 {
      ShiftBack(t, Pow256(3 - size));
    } else {
      FloorOfQuotient(t, Pow256(size - 3));
    }
  }

  /** A mantissa that reached the sign bit and moves up one byte. */
  lemma ScaledShifted(t: nat)
    requires t > 0 && Mantissa(t) >= 0x80_0000
    ensures Scaled(Mantissa(t) / 256, ByteLen(t) + 1) == Floor(t, Pow256(Dropped(t)))
  {
    if ByteLen(t) <= 2 {
      ScaledShiftedShort(t);
    } else if ByteLen(t) == 3 {
      assert Pow256(1) == 256 && Pow256(0) == 1;
    } else {
      ScaledShiftedLong(t);
    }
  }

  lemma ScaledShiftedShort(t: nat)
    requires t > 0 && Mantissa(t) >= 0x80_0000 && ByteLen(t) <= 2
    ensures Scaled(Mantissa(t) / 256, ByteLen(t) + 1) == t
  {
    var d := Pow256(2 - ByteLen(t));
    assert Pow256(3 - ByteLen(t)) == 256 * d;
    assert t * (256 * d) == t * d * 256;
    ShiftBack(t * d, 256);
    ShiftBack(t, d);
  }

  lemma ScaledShiftedLong(t: nat)
    requires t > 0 && Mantissa(t) >= 0x80_0000 && ByteLen(t) > 3
    ensures Scaled(Mantissa(t) / 256, ByteLen(t) + 1) == Floor(t, Pow256(Dropped(t)))
  {
    var d := Pow256(ByteLen(t) - 3);
    assert Pow256(ByteLen(t) - 2) == 256 * d;
    DivDiv(t, d, 256);
    assert d * 256 == 256 * d;
    FloorOfQuotient(t, 256 * d);
  }

  lemma PackedValue(mantissa: nat, size: nat)
    requires mantissa < 0x100_0000 && size <= 254
    ensures Packed(mantissa, size) == if mantissa < 0x80_0000 then mantissa + size * 0x100_0000
                                      else mantissa / 256 + (size + 1) * 0x100_0000
  {}

  lemma DecodePacked(mantissa: nat, size: nat)
    requires mantissa < 0x100_0000 && size <= 254
    ensures Decode(Packed(mantissa, size)) == if mantissa < 0x80_0000 then Scaled(mantissa, size)
                                              else Scaled(mantissa / 256, size + 1)
  {
    PackedValue(mantissa, size);
    var (m, e) := if mantissa < 0x80_0000 then (mantissa, size) else (mantissa / 256, size + 1);
    DecodeParts(m, e);
  }

  /** What the round trip keeps: t with its dropped bytes cleared. */
  lemma RoundedClears(t: nat)
    requires ByteLen(t) <= 254
    ensures Rounded(t) == Floor(t, Pow256(Dropped(t)))
  {
    if t == 0 {
      assert Encode(0) == 0 && Decode(0) == 0;
    } else {
      MantissaRange(t);
      DecodePacked(Mantissa(t), ByteLen(t));
      if Mantissa(t) < 0x80_0000 { ScaledPlain(t); } else { ScaledShifted(t); }
    }
  }

  /** The interval of targets that lose exactly k bytes. */
  predicate InBand(t: nat, k: nat) {
    t < 0x8000 * Pow256(k + 1) && (k > 0 ==> 0x8000 * Pow256(k) <= t)
  }

  lemma QuotientBelow(t: nat, d: nat, m: nat)
    requires d > 0
    ensures t / d < m <==> t < m * d
  {
    MulSign(t / d - m, d);
    FloorOfQuotient(t, d);
    if t / d >= m { MulMonotone(m, t / d, d); }
  }

  lemma DroppedBand(t: nat)
    ensures InBand(t, Dropped(t))
  {
    Pow256Values();
    if t > 0 {
      var size := ByteLen(t);
      if size <= 3 {
        if Mantissa(t) < 0x80_0000 { MulMonotone(1, Pow256(3 - size), t); }
      } else {
        DroppedBandLong(t, Pow256(size - 3));
      }
    }
  }

  lemma DroppedBandLong(t: nat, d: nat)
    requires ByteLen(t) > 3 && d == Pow256(ByteLen(t) - 3)
    ensures InBand(t, Dropped(t))
  {
    var size := ByteLen(t);
    assert Pow256(size - 2) == 256 * d && Pow256(size - 1) == 0x1_0000 * d;
    assert Pow256(size) == 256 * Pow256(size - 1);
    QuotientBelow(t, d, 0x80_0000);
  }

  lemma BandOrder(t: nat, t': nat, k: nat, k': nat)
    requires t <= t' && InBand(t, k) && InBand(t', k')
    ensures k <= k'
  {
    if k > k' { Pow256Monotone(k' + 1, k); }
  }

  lemma LenBelow(t: nat, n: nat)
    requires t < Pow256(n)
    ensures ByteLen(t) <= n
  {
    var len := ByteLen(t);
    if 0 < len && n <= len - 1 { Pow256Monotone(n, len - 1); }
  }

  // ---------- the laws of the compact form ----------

  /** Encoding never raises a target, and loses less than one part in 2^15. */
  lemma RoundedBounds(t: nat)
    requires t < Pow256(254)
    ensures Rounded(t) <= t
    ensures t > 0 ==> (t - Rounded(t)) * 0x8000 < t
  {
    LenBelow(t, 254);
    RoundedClears(t);
    DroppedBand(t);
  }

  lemma DroppedIs(t: nat, k: nat)
    requires InBand(t, k)
    ensures Dropped(t) == k
  {
    DroppedBand(t);
    BandOrder(t, t, k, Dropped(t));
    BandOrder(t, t, Dropped(t), k);
  }

  lemma RoundedAt(t: nat, k: nat)
    requires t < Pow256(254) && InBand(t, k)
    ensures Rounded(t) == Floor(t, Pow256(k))
  {
    LenBelow(t, 254);
    RoundedClears(t);
    DroppedIs(t, k);
  }

  lemma RoundedJump(t: nat, t': nat, k: nat, k': nat)
    requires t' < Pow256(254) && t < Pow256(254)
    requires InBand(t, k) && InBand(t', k') && k < k'
    ensures Rounded(t) <= Rounded(t')
  {
    RoundedBounds(t);
    RoundedAt(t', k');
    Pow256Monotone(k + 1, k');
    FloorAbove(t', 0x8000, Pow256(k'));
  }

  lemma RoundedMonotone(t: nat, t': nat)
    requires t <= t' < Pow256(254)
    ensures Rounded(t) <= Rounded(t')
  {
    var k, k' := Dropped(t), Dropped(t');
    DroppedBand(t);
    DroppedBand(t');
    BandOrder(t, t', k, k');
    if k == k' {
      RoundedAt(t, k);
      RoundedAt(t', k);
      FloorMonotone(t, t', Pow256(k));
    } else {
      RoundedJump(t, t', k, k');
    }
  }

  /** Clearing the dropped bytes does not change how many are dropped. */
  lemma FloorKeepsBand(t: nat, k: nat)
    requires InBand(t, k)
    ensures InBand(Floor(t, Pow256(k)), k)
  {
    if k > 0 { FloorAbove(t, 0x8000, Pow256(k)); }
  }

  lemma RoundedIdempotent(t: nat)
    requires t < Pow256(254)
    ensures Rounded(Rounded(t)) == Rounded(t)
  {
    var k := Dropped(t);
    DroppedBand(t);
    RoundedAt(t, k);
    FloorKeepsBand(t, k);
    RoundedAt(Floor(t, Pow256(k)), k);
    FloorIdempotent(t, Pow256(k));
  }

  lemma ByteLenUnique(t: nat, n: nat)
    requires n > 0 && Pow256(n - 1) <= t < Pow256(n)
    ensures ByteLen(t) == n
  {
    LenBelow(t, n);
    if ByteLen(t) < n { Pow256Monotone(ByteLen(t), n - 1); }
  }

  /** A normalised mantissa in a long target reads back unchanged. */
  lemma EncodeScaledLong(m: nat, e: nat)
    requires 0x1_0000 <= m < 0x80_0000 && 4 <= e <= 255
    ensures var t := Scaled(m, e);
            t > 0 && ByteLen(t) == e && Mantissa(t) == m
  {
    var d := Pow256(e - 3);
    assert Pow256(e - 2) == 256 * d && Pow256(e - 1) == 0x1_0000 * d && Pow256(e) == 0x100_0000 * d;
    MulMonotone(0x1_0000, m, d);
    MulMonotone(m, 0xff_ffff, d);
    ByteLenUnique(Prod(m, d), e);
    ShiftBack(m, d);
  }

  /** As above, for a mantissa the encoder moved up one byte. */
  lemma EncodeScaledMoved(m: nat, e: nat)
    requires 0x8000 <= m < 0x1_0000 && 4 <= e <= 255
    ensures var t := Scaled(m, e);
            t > 0 && ByteLen(t) == e - 1 && Mantissa(t) == m * 256
  {
    var d := Pow256(e - 3);
    assert Pow256(e - 2) == 256 * d && Pow256(e - 1) == 0x1_0000 * d;
    MulMonotone(0x8000, m, d);
    MulMonotone(m, 0xffff, d);
    ByteLenUnique(Prod(m, d), e - 1);
    if e == 4 {
      assert Pow256(1) == 256 && Pow256(0) == 1;
    } else {
      var d' := Pow256(e - 4);
      assert m * (256 * d') == m * 256 * d';
      ShiftBack(m * 256, d');
    }
  }

  lemma EncodeScaledShort(m: nat, e: nat)
    requires 0x8000 <= m < 0x80_0000 && 1 <= e <= 3 && m % Pow256(3 - e) == 0
    ensures var t := Scaled(m, e);
            t > 0 && ByteLen(t) == (if m < 0x1_0000 then e - 1 else e) &&
            Mantissa(t) == (if m < 0x1_0000 then m * 256 else m)
  {
    Pow256Values();
    var d := Pow256(3 - e);
    assert d == if e == 3 then 1 else if e == 2 then 0x100 else 0x1_0000;
    var t := m / d;
    if m < 0x1_0000 {
      ByteLenUnique(t, e - 1);
    } else {
      ByteLenUnique(t, e);
    }
  }

  lemma PackedNormal(m: nat, e: nat)
    requires 0x8000 <= m < 0x80_0000 && 1 <= e <= 255
    ensures m + e * 0x100_0000 == if m < 0x1_0000 then Packed(m * 256, e - 1) else Packed(m, e)
  {}

  lemma EncodeScaled(m: nat, e: nat)
    requires Normalised(m, e) && e <= 255
    ensures Encode(Scaled(m, e)) == m + e * 0x100_0000
  {
    if e <= 3 {
      EncodeScaledShort(m, e);
    } else if m < 0x1_0000 {
      EncodeScaledMoved(m, e);
    } else {
      EncodeScaledLong(m, e);
    }
    PackedNormal(m, e);
  }

  /** Every canonical word survives decoding and encoding. */
  lemma EncodeDecode(bits: u32)
    requires Canonical(bits)
    ensures Encode(Decode(bits)) == bits
  {
    if bits != 0 {
      EncodeScaled(bits % 0x100_0000, bits / 0x100_0000);
    } else {
      assert Decode(0) == 0;
    }
  }

  lemma PaddedDivides(t: nat)
    requires t > 0
    ensures ByteLen(t) <= 3 ==> Mantissa(t) % Pow256(3 - ByteLen(t)) == 0
    ensures ByteLen(t) <= 2 ==> Mantissa(t) / 256 % Pow256(2 - ByteLen(t)) == 0
  {
    var n := ByteLen(t);
    if n <= 3 {
      var d := Pow256(3 - n);
      DivUnique(t * d, d, t, 0);
      if n <= 2 {
        var d' := Pow256(2 - n);
        assert t * (256 * d') == t * d' * 256;
        ShiftBack(t * d', 256);
        DivUnique(t * d', d', t, 0);
      }
    }
  }

  lemma NormalisedWord(m: nat, e: nat)
    requires Normalised(m, e) && e <= 255
    ensures Canonical(m + e * 0x100_0000)
  {}

  lemma MantissaNormalised(t: nat)
    requires t > 0
    ensures if Mantissa(t) < 0x80_0000 then Normalised(Mantissa(t), ByteLen(t))
            else Normalised(Mantissa(t) / 256, ByteLen(t) + 1)
  {
    MantissaRange(t);
    PaddedDivides(t);
  }

  /** The encoder only ever produces canonical words. */
  lemma EncodeCanonical(t: nat)
    requires t < Pow256(254)
    ensures Canonical(Encode(t))
  {
    if t > 0 {
      var mantissa, size := Mantissa(t), ByteLen(t);
      LenBelow(t, 254);
      MantissaRange(t);
      MantissaNormalised(t);
      PackedCanonical(mantissa, size);
    }
  }

  lemma PackedCanonical(mantissa: nat, size: nat)
    requires mantissa < 0x100_0000 && size <= 254
    requires if mantissa < 0x80_0000 then Normalised(mantissa, size) else Normalised(mantissa / 256, size + 1)
    ensures Canonical(Packed(mantissa, size))
  {
    PackedValue(mantissa, size);
    if mantissa < 0x80_0000 {
      NormalisedWord(mantissa, size);
    } else {
      NormalisedWord(mantissa / 256, size + 1);
    }
  }

  /** Rounded(t) is the greatest representable target that does not exceed t. */
  lemma RoundedGreatest(bits: u32, t: nat)
    requires Canonical(bits) && Decode(bits) <= t < Pow256(254)
    ensures Decode(bits) <= Rounded(t)
  {
    EncodeDecode(bits);
    RoundedMonotone(Decode(bits), t);
  }

  /** A header adds work exactly when its target fits in 256 bits. */
  lemma WorkPositive(bits: u32)
    ensures Work(bits) > 0 <==> Decode(bits) < TWO_256
  {
    QuotientBelow(TWO_256, Decode(bits) + 1, 1);
  }

  lemma QuotientExact(a: nat, d: nat)
    requires d > 0
    ensures (a / d) * d <= a < (a / d + 1) * d
  {
    assert a == d * (a / d) + a % d;
  }

  /** The work of a header is how many of its targets, plus one each, fit into 2^256. */
  lemma WorkExact(bits: u32)
    ensures Work(bits) * (Decode(bits) + 1) <= TWO_256 < (Work(bits) + 1) * (Decode(bits) + 1)
  {
    hide Decode;
    QuotientExact(TWO_256, Decode(bits) + 1);
  }

  /** A smaller target never has less work. */
  lemma WorkAntitone(bits: u32, bits': u32)
    requires Decode(bits) <= Decode(bits')
    ensures Work(bits') <= Work(bits)
  {
    hide Decode, Work;
    var w, w', t, t' := Work(bits), Work(bits'), Decode(bits) + 1, Decode(bits') + 1;
    WorkExact(bits);
    WorkExact(bits');
    if w < w' {
      MulMonotone(w + 1, w', t);
      MulMonotone(t, t', w');
    }
  }

  /** The value of a compact word: its mantissa moved by whole bytes, what falls off the end lost. */
  lemma DecodeExact(bits: u32)
    ensures var m, e := bits % 0x100_0000, bits / 0x100_0000;
            if e >= 3 then Decode(bits) == m * Pow256(e - 3)
            else Decode(bits) * Pow256(3 - e) <= m < (Decode(bits) + 1) * Pow256(3 - e)
  {
    var m, e := bits % 0x100_0000, bits / 0x100_0000;
    if e <= 3 { QuotientExact(m, Pow256(3 - e)); }
  }
}
