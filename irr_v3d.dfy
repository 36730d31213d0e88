/** Block positions: the three-axis `v3s16` and the phase-aware `v4s16`
    value type with its constructors, comparison operators, projection back to
    three axes and its lane-packing hash. */
module IrrV3d {
  import opened CppInt

  /** `v3s16`: three s16 components; only the fields matter to this core. */
  datatype V3s16 = V3s16(X: S16, Y: S16, Z: S16)

  /** `v4s16`: a block position extended with a phase P. */
  datatype V4s16 = V4s16(X: S16, Y: S16, Z: S16, P: S16)

  /** `v4s16(x, y, z, p = 0)`: the three axes as given, the phase p. */
  function Make(x: S16, y: S16, z: S16, p: S16 := 0): (v: V4s16)
    ensures ToV3s16(v) == V3s16(x, y, z) && v.P == p
  {
    V4s16(x, y, z, p)
  }

  /** `v4s16(const v3s16 &pos, p = 0)`. */
  function FromV3(pos: V3s16, p: S16 := 0): (v: V4s16)
    ensures v == Make(pos.X, pos.Y, pos.Z, p)
  {
    V4s16(pos.X, pos.Y, pos.Z, p)
  }

  /** `v4s16()`, the defaulted constructor, as in a default-initialised
      `v4s16 pos;` with automatic storage: only P has a default member
      initialiser, so X, Y and Z keep whatever indeterminate values the storage
      held; those values are the parameters here. (Value-initialisation and
      static storage zero the object first: the parameters are then 0.) */
  function DefaultInit(x0: S16, y0: S16, z0: S16): (v: V4s16)
    ensures v.P == 0
    ensures Eq(v, Origin()) <==> x0 == 0 && y0 == 0 && z0 == 0
  {
    V4s16(x0, y0, z0, 0)
  }

  /** A default construction that also zeroes X, Y and Z: what the defaulted
      constructor is evidently meant to produce. */
  function Origin(): (v: V4s16)
    ensures v == Make(0, 0, 0)
    ensures Hash(v) == 0
  {
    V4s16(0, 0, 0, 0)
  }

  /** `operator==`: componentwise, the phase included. */
  function Eq(a: V4s16, b: V4s16): (r: bool)
    ensures r <==> a == b
  {
    a.X == b.X && a.Y == b.Y && a.Z == b.Z && a.P == b.P
  }

  /** `operator!=`: the negation of `==`. */
  function Neq(a: V4s16, b: V4s16): (r: bool)
    ensures r <==> a != b
  {
    !Eq(a, b)
  }

  /** `toV3s16()`: drops the phase, and only the phase: re-extending the
      triple with the original phase gives the position back. */
  function ToV3s16(pos: V4s16): (v: V3s16)
    ensures V4s16(v.X, v.Y, v.Z, pos.P) == pos
  {
    V3s16(pos.X, pos.Y, pos.Z)
  }

  /** `v4s16::Hash`: the u16 bit pattern of each component shifted into its own
      16-bit lane of a 64-bit size_t (X highest, P lowest) and combined by
      exclusive or. Because the lanes do not overlap, the exclusive or is the
      packed sum. */
  function Hash(pos: V4s16): (h: U64)
    ensures h == ToU16(pos.X) * 0x1_0000_0000_0000 + ToU16(pos.Y) * 0x1_0000_0000
                 + ToU16(pos.Z) * 0x1_0000 + ToU16(pos.P)
  {
    var x, y, z, p := ToU16(pos.X), ToU16(pos.Y), ToU16(pos.Z), ToU16(pos.P);
    HashFirstStep(x, y);
    HashSecondStep(x * TWO_16 + y, z);
    HashLastStep((x * TWO_16 + y) * TWO_16 + z, p);
    XorU64(XorU64(XorU64(ShlU64(x, 48), ShlU64(y, 32)), ShlU64(z, 16)), p)
  }

  // ---------------------------------------------------------------------------
  // Constructors and projection

  /** Three arguments give phase 0 and the three components unchanged. */
  lemma ThreeArgumentsMeanPhaseZero(x: S16, y: S16, z: S16)
    ensures Make(x, y, z).P == 0
    ensures Make(x, y, z).X == x && Make(x, y, z).Y == y && Make(x, y, z).Z == z
    ensures Make(x, y, z) == Make(x, y, z, 0)
  {}

  /** Building from a v3s16 and projecting back gives the triple again,
      whatever the phase; without a phase the result has phase 0. */
  lemma ProjectionRoundTrip(v: V3s16, p: S16)
    ensures ToV3s16(FromV3(v, p)) == v
    ensures FromV3(v).P == 0 && ToV3s16(FromV3(v)) == v
  {}

  /** The two constructors agree: `v4s16(x,y,z,p) == v4s16(v3s16(x,y,z),p)`. */
  lemma ConstructorsAgree(x: S16, y: S16, z: S16, p: S16)
    ensures Eq(Make(x, y, z, p), FromV3(V3s16(x, y, z), p))
    ensures Eq(Make(x, y, z), FromV3(V3s16(x, y, z)))
  {}

  /** A default-constructed position has phase 0 and nothing else is fixed:
      its X, Y and Z are whatever was in memory. */
  lemma DefaultInitPhaseOnly(x0: S16, y0: S16, z0: S16)
    ensures DefaultInit(x0, y0, z0).P == 0
    ensures ToV3s16(DefaultInit(x0, y0, z0)) == V3s16(x0, y0, z0)
  {}

  /** The defaulted constructor need not give (0,0,0,0): with leftover storage
      holding X = 1 it yields a position different from the origin. */
  lemma DefaultInitNotAlwaysOrigin()
    ensures Neq(DefaultInit(1, 0, 0), Origin())
  {}

  // ---------------------------------------------------------------------------
  // Equality

  /** Positions that differ only in phase are distinct. */
  lemma PhaseDistinguishes(pos: V4s16, p: S16)
    ensures Eq(pos, pos.(P := p)) <==> pos.P == p
  {}

  // ---------------------------------------------------------------------------
  // Hash

  /** (x << 48) ^ (y << 32) == (x * 2^16 + y) << 32 */
  lemma HashFirstStep(x: U16, y: U16)
    ensures XorU64(ShlU64(x, 48), ShlU64(y, 32)) == (x * TWO_16 + y) * 0x1_0000_0000
  {
    Pow2Values();
    var sx, sy := ShlU64(x, 48), ShlU64(y, 32);
    assert sx == x * Pow2(16) * Pow2(32);
    assert sy == y * Pow2(32);
    XorAppendLane(x, y, 16, 32);
  }

  /** (xy << 32) ^ (z << 16) == (xy * 2^16 + z) << 16 for a 32-bit xy */
  lemma HashSecondStep(xy: nat, z: U16)
    requires xy < 0x1_0000_0000
    ensures XorU64(xy * 0x1_0000_0000, ShlU64(z, 16)) == (xy * TWO_16 + z) * TWO_16
  {
    Pow2Values();
    var sz := ShlU64(z, 16);
    assert xy * 0x1_0000_0000 == xy * Pow2(16) * Pow2(16);
    assert sz == z * Pow2(16);
    XorAppendLane(xy, z, 16, 16);
  }

  /** (xyz << 16) ^ p == (xyz << 16) + p for a 48-bit xyz */
  lemma HashLastStep(xyz: nat, p: U16)
    requires xyz < 0x1_0000_0000_0000
    ensures XorU64(xyz * TWO_16, p) == xyz * TWO_16 + p
  {
    Pow2Values();
    XorLow(xyz, p, 16);
  }

  /** Each component is recoverable from its lane as its u16 bit pattern. */
  lemma HashLanes(pos: V4s16)
    ensures Hash(pos) / 0x1_0000_0000_0000 == ToU16(pos.X)
    ensures Hash(pos) / 0x1_0000_0000 % TWO_16 == ToU16(pos.Y)
    ensures Hash(pos) / 0x1_0000 % TWO_16 == ToU16(pos.Z)
    ensures Hash(pos) % TWO_16 == ToU16(pos.P)
  {
    UnpackLanes(ToU16(pos.X), ToU16(pos.Y), ToU16(pos.Z), ToU16(pos.P));
  }

  /** Equal positions hash equally. */
  lemma HashConsistentWithEq(a: V4s16, b: V4s16)
    ensures Eq(a, b) ==> Hash(a) == Hash(b)
  {}

  /** The hash is injective: distinct positions never collide. */
  lemma HashInjective(a: V4s16, b: V4s16)
    ensures Hash(a) == Hash(b) <==> Eq(a, b)
  {
    if Hash(a) == Hash(b) {
      HashLanes(a);
      HashLanes(b);
      ToU16Injective(a.X, b.X);
      ToU16Injective(a.Y, b.Y);
      ToU16Injective(a.Z, b.Z);
      ToU16Injective(a.P, b.P);
    }
  }

  /** Every 64-bit word is the hash of some position: the position whose
      components are the s16 readings of the word's four 16-bit lanes. With
      HashInjective, the hash is a bijection between s16^4 and 64-bit words. */
  lemma HashOnto(h: U64)
    ensures Hash(V4s16(ToS16(h / 0x1_0000_0000_0000), ToS16(h / 0x1_0000_0000 % TWO_16),
                       ToS16(h / 0x1_0000 % TWO_16), ToS16(h % TWO_16))) == h
  {
    var q1 := h / TWO_16;
    var q2 := q1 / TWO_16;
    var t := q2 / TWO_16;
    var a, b, c := h % TWO_16, q1 % TWO_16, q2 % TWO_16;
    assert h == t * 0x1_0000_0000_0000 + c * 0x1_0000_0000 + b * 0x1_0000 + a;
    UnpackLanes(t, c, b, a);
    assert 0 <= t < TWO_16;
    U16BitPattern(t);
    U16BitPattern(a);
    U16BitPattern(b);
    U16BitPattern(c);
  }

  /** Changing any single component changes the hash. */
  lemma HashSeesEachComponent(pos: V4s16, v: S16)
    ensures v != pos.X ==> Hash(pos.(X := v)) != Hash(pos)
    ensures v != pos.Y ==> Hash(pos.(Y := v)) != Hash(pos)
    ensures v != pos.Z ==> Hash(pos.(Z := v)) != Hash(pos)
    ensures v != pos.P ==> Hash(pos.(P := v)) != Hash(pos)
  {
    HashInjective(pos.(X := v), pos);
    HashInjective(pos.(Y := v), pos);
    HashInjective(pos.(Z := v), pos);
    HashInjective(pos.(P := v), pos);
  }
}
