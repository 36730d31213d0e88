/** The `MapDatabase` codecs between block positions and the 64-bit integer
    keys under which blocks are stored: the legacy three-axis scheme with
    12-bit components and the phase-aware four-axis scheme with 16-bit lanes.
    The two schemes are separate: nothing here converts a key of one scheme
    into a key of the other. */
module MapDatabase {
  import opened CppInt
  import opened IrrV3d

  const LEGACY_OFFSET: int := 0x800800800

  /** The range in which the legacy scheme is exact: every component fits in
      12 signed bits. */
  predicate InLegacyRange(pos: V3s16)
  {
    && -0x800 <= pos.X < 0x800
    && -0x800 <= pos.Y < 0x800
    && -0x800 <= pos.Z < 0x800
  }

  // ---------------------------------------------------------------------------
  // Legacy three-axis scheme

  /** `getBlockAsInteger(const v3s16 &)`: Z << 24 + Y << 12 + X on s64; for s16
      components no shift wraps and the sum cannot overflow. */
  function GetBlockAsInteger3(pos: V3s16): (i: S64)
    ensures i == pos.Z * 0x100_0000 + pos.Y * 0x1000 + pos.X
  {
    Pow2Values();
    ShlS64(pos.Z, 24) + ShlS64(pos.Y, 12) + pos.X
  }

  /** `getIntegerAsBlock(s64)` returning v3s16: adds the offset 0x800800800
      (so that a key built from components in [-2048, 2047] becomes
      non-negative), takes three 12-bit groups and subtracts 0x800 from each.
      The addition is taken modulo 2^64. */
  function GetIntegerAsBlock3(i: S64): (pos: V3s16)
    ensures InLegacyRange(pos)
  {
    Pow2Values();
    var j := ToS64(i + LEGACY_OFFSET);
    V3s16(ToS16(LowBits(j, 12) - 0x800),
          ToS16(LowBits(ShrS64(j, 12), 12) - 0x800),
          ToS16(LowBits(ShrS64(j, 24), 12) - 0x800))
  }

  /** The origin has key 0. */
  lemma LegacyOriginIsZero()
    ensures GetBlockAsInteger3(V3s16(0, 0, 0)) == 0
  {}

  /** Three 12-bit groups packed as (z * 2^12 + y) * 2^12 + x are read back by
      floor division and remainder. */
  lemma UnpackLegacyGroups(z: int, y: int, x: int)
    requires 0 <= x < 0x1000 && 0 <= y < 0x1000 && 0 <= z < 0x1000
    ensures var j := (z * 0x1000 + y) * 0x1000 + x;
      && j % 0x1000 == x
      && j / 0x1000 % 0x1000 == y
      && j / 0x100_0000 % 0x1000 == z
  {
    var zy := z * 0x1000 + y;
    var j := zy * 0x1000 + x;
    assert j % 0x1000 == x && j / 0x1000 == zy by {
      DivModOf(j, zy, x, 0x1000);
    }
    assert zy % 0x1000 == y by {
      DivModOf(zy, z, y, 0x1000);
    }
    assert j / 0x100_0000 == z by {
      DivModOf(j, z, y * 0x1000 + x, 0x100_0000);
    }
  }

  /** The legacy decoder in plain arithmetic: the shifts are floor divisions
      and the masks remainders. */
  lemma LegacyDecodeArithmetic(i: S64)
    ensures var j := ToS64(i + LEGACY_OFFSET);
      GetIntegerAsBlock3(i)
      == V3s16(j % 0x1000 - 0x800, j / 0x1000 % 0x1000 - 0x800, j / 0x100_0000 % 0x1000 - 0x800)
  {
    Pow2Values();
  }

  /** Within the 12-bit range, decoding undoes encoding. */
  lemma LegacyRoundTrip(pos: V3s16)
    requires InLegacyRange(pos)
    ensures GetIntegerAsBlock3(GetBlockAsInteger3(pos)) == pos
  {
    var i := GetBlockAsInteger3(pos);
    var x, y, z := pos.X + 0x800, pos.Y + 0x800, pos.Z + 0x800;
    var j := (z * 0x1000 + y) * 0x1000 + x;
    assert i + LEGACY_OFFSET == j;
    assert 0 <= j < TWO_63;
    UnpackLegacyGroups(z, y, x);
    LegacyDecodeArithmetic(i);
  }

  /** Within the 12-bit range, distinct positions get distinct keys. */
  lemma LegacyInjectiveInRange(a: V3s16, b: V3s16)
    requires InLegacyRange(a) && InLegacyRange(b)
    ensures GetBlockAsInteger3(a) == GetBlockAsInteger3(b) <==> a == b
  {
    LegacyRoundTrip(a);
    LegacyRoundTrip(b);
  }

  /** Outside the 12-bit range keys collide: (4096,0,0) and (0,1,0) both get
      key 4096, which decodes to (0,1,0). */
  lemma LegacyCollisionOutsideRange()
    ensures GetBlockAsInteger3(V3s16(4096, 0, 0)) == GetBlockAsInteger3(V3s16(0, 1, 0)) == 4096
    ensures GetIntegerAsBlock3(4096) == V3s16(0, 1, 0)
  {
    LegacyRoundTrip(V3s16(0, 1, 0));
  }

  lemma ModOfMultiple(a: int, b: int, m: int)
    requires m > 0 && (a - b) % m == 0
    ensures a % m == b % m
  {
    DivModOf(a, b / m + (a - b) / m, b % m, m);
  }

  /** The three 12-bit groups of j lie in its low 36 bits. */
  lemma LegacyGroupsOfLow36(j: int)
    ensures var r := j % 0x10_0000_0000;
      && j % 0x1000 == r % 0x1000
      && j / 0x1000 % 0x1000 == r / 0x1000 % 0x1000
      && j / 0x100_0000 % 0x1000 == r / 0x100_0000 % 0x1000
  {
    var q, r := j / 0x10_0000_0000, j % 0x10_0000_0000;
    var r1, r2 := r / 0x1000, r / 0x100_0000;
    assert j / 0x1000 == q * 0x100_0000 + r1 && j % 0x1000 == r % 0x1000 by {
      DivModOf(j, q * 0x100_0000 + r1, r % 0x1000, 0x1000);
    }
    assert (q * 0x100_0000 + r1) % 0x1000 == r1 % 0x1000 by {
      DivModOf(q * 0x100_0000 + r1, q * 0x1000 + r1 / 0x1000, r1 % 0x1000, 0x1000);
    }
    assert j / 0x100_0000 == q * 0x1000 + r2 by {
      DivModOf(j, q * 0x1000 + r2, r % 0x100_0000, 0x100_0000);
    }
    assert (q * 0x1000 + r2) % 0x1000 == r2 % 0x1000 by {
      DivModOf(q * 0x1000 + r2, q + r2 / 0x1000, r2 % 0x1000, 0x1000);
    }
  }

  /** Wrapping into s64 keeps the low 36 bits, as 2^36 divides 2^64. */
  lemma WrapKeepsLow36(x: int)
    ensures ToS64(x) % 0x10_0000_0000 == x % 0x10_0000_0000
  {
    var d := (ToS64(x) - x) / TWO_64;
    assert ToS64(x) - x == d * 0x1000_0000 * 0x10_0000_0000;
    DivModOf(ToS64(x) - x, d * 0x1000_0000, 0, 0x10_0000_0000);
    ModOfMultiple(ToS64(x), x, 0x10_0000_0000);
  }

  /** Legacy decoding reads only the key modulo 2^36: keys that differ by a
      multiple of 2^36 decode to the same position. */
  lemma LegacyDecodeReadsLow36(i: S64, k: S64)
    requires (i - k) % 0x10_0000_0000 == 0
    ensures GetIntegerAsBlock3(i) == GetIntegerAsBlock3(k)
  {
    var ji, jk := ToS64(i + LEGACY_OFFSET), ToS64(k + LEGACY_OFFSET);
    assert ji % 0x10_0000_0000 == jk % 0x10_0000_0000 by {
      WrapKeepsLow36(i + LEGACY_OFFSET);
      WrapKeepsLow36(k + LEGACY_OFFSET);
      ModOfMultiple(i + LEGACY_OFFSET, k + LEGACY_OFFSET, 0x10_0000_0000);
    }
    LegacyGroupsOfLow36(ji);
    LegacyGroupsOfLow36(jk);
    LegacyDecodeArithmetic(i);
    LegacyDecodeArithmetic(k);
  }

  // ---------------------------------------------------------------------------
  // Phase-aware four-axis scheme

  /** `(s64)p << 48` for the u16 pattern p of a phase: C++20 wraps the product
      into s64, which gives the signed phase times 2^48. */
  lemma PhaseLaneShift(phase: S16)
    ensures ShlS64(ToU16(phase), 48) == phase * 0x1_0000_0000_0000
  {
    Pow2Values();
    S16BitPattern(phase);
  }

  /** `getBlockAsInteger(const v4s16 &)`: the u16 patterns of X, Y, Z and P in
      bits 0-15, 16-31, 32-47 and 48-63. The phase lane carries the sign, so
      the key is negative exactly when the phase is. */
  function GetBlockAsInteger4(pos: V4s16): (i: S64)
    ensures i == pos.P * 0x1_0000_0000_0000 + ToU16(pos.Z) * 0x1_0000_0000
                 + ToU16(pos.Y) * 0x1_0000 + ToU16(pos.X)
    ensures i < 0 <==> pos.P < 0
  {
    var x, y, z, p := ToU16(pos.X), ToU16(pos.Y), ToU16(pos.Z), ToU16(pos.P);
    Pow2Values();
    PhaseLaneShift(pos.P);
    ShlS64(p, 48) + ShlS64(z, 32) + ShlS64(y, 16) + x
  }

  /** `getIntegerAsBlock(s64)` returning v4s16: each 16-bit group, taken by
      an arithmetic shift and a mask, reinterpreted as s16. Every s64 key is
      the encoding of the position it decodes to, so the codec is onto the
      whole key space. */
  function GetIntegerAsBlock4(i: S64): (pos: V4s16)
    ensures GetBlockAsInteger4(pos) == i
  {
    Pow2Values();
    ReencodeGroups4(i);
    V4s16(ToS16(LowBits(i, 16)),
          ToS16(LowBits(ShrS64(i, 16), 16)),
          ToS16(LowBits(ShrS64(i, 32), 16)),
          ToS16(LowBits(ShrS64(i, 48), 16)))
  }

  /** The key's bits: bits 0-15 hold (u16)X, 16-31 (u16)Y, 32-47 (u16)Z and
      48-63 (u16)P, exactly the groups the decoder reads. */
  lemma KeyLayout4(pos: V4s16)
    ensures var i := GetBlockAsInteger4(pos);
      && LowBits(i, 16) == ToU16(pos.X)
      && LowBits(ShrS64(i, 16), 16) == ToU16(pos.Y)
      && LowBits(ShrS64(i, 32), 16) == ToU16(pos.Z)
      && LowBits(ShrS64(i, 48), 16) == ToU16(pos.P)
  {
    Pow2Values();
    UnpackLanes(pos.P, ToU16(pos.Z), ToU16(pos.Y), ToU16(pos.X));
  }

  /** The all-zero position has key 0, and only it. */
  lemma OriginKey4(pos: V4s16)
    ensures GetBlockAsInteger4(pos) == 0 <==> pos == Origin()
  {
    Injective4(pos, Origin());
  }

  /** Decoding undoes encoding for every s16 position. */
  lemma RoundTrip4(pos: V4s16)
    ensures GetIntegerAsBlock4(GetBlockAsInteger4(pos)) == pos
  {
    KeyLayout4(pos);
    S16BitPattern(pos.X);
    S16BitPattern(pos.Y);
    S16BitPattern(pos.Z);
    S16BitPattern(pos.P);
  }

  /** The s16 readings of the four 16-bit groups of a key, in plain
      arithmetic, re-encode to that key. */
  lemma ReencodeGroups4(i: S64)
    ensures GetBlockAsInteger4(V4s16(ToS16(i % TWO_16), ToS16(i / 0x1_0000 % TWO_16),
                                     ToS16(i / 0x1_0000_0000 % TWO_16),
                                     ToS16(i / 0x1_0000_0000_0000 % TWO_16))) == i
  {
    var q1 := i / TWO_16;
    var q2 := q1 / TWO_16;
    var t := q2 / TWO_16;
    var a, b, c := i % TWO_16, q1 % TWO_16, q2 % TWO_16;
    assert i == t * 0x1_0000_0000_0000 + c * 0x1_0000_0000 + b * 0x1_0000 + a;
    UnpackLanes(t, c, b, a);
    assert -TWO_15 <= t < TWO_15;
    S16BitPattern(t);
    U16BitPattern(a);
    U16BitPattern(b);
    U16BitPattern(c);
  }

  /** The four-axis encoding is injective: with GetIntegerAsBlock4 onto every
      key, a bijection between s16^4 and s64. */
  lemma Injective4(a: V4s16, b: V4s16)
    ensures GetBlockAsInteger4(a) == GetBlockAsInteger4(b) <==> a == b
  {
    RoundTrip4(a);
    RoundTrip4(b);
  }

  /** The two schemes give different keys to the same phase-0 position, so
      a key's scheme cannot be inferred from its value. */
  lemma SchemesDisagreeAtPhaseZero()
    ensures GetBlockAsInteger3(V3s16(0, 1, 0)) != GetBlockAsInteger4(FromV3(V3s16(0, 1, 0)))
  {}
}
