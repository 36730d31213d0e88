/** The fixed-width C++ integers the block-position code works with, modelled on
    unbounded `int` with the semantics C++20 gives them:
    - a conversion to an N-bit type keeps the value modulo 2^N (`ToU16`,
      `ToS16`, `ToS64`);
    - `<<` on a signed 64-bit value is the product wrapped into 64 bits (`ShlS64`),
      on an unsigned one the product modulo 2^64 (`ShlU64`);
    - `>>` on a signed value is an arithmetic shift, i.e. floor division
      (`ShrS64`; Dafny's `/` is floor division for a positive divisor);
    - `&` with a mask 2^k - 1 keeps the low k bits of the two's-complement
      pattern (`LowBits`; Dafny's `%` is never negative);
    - `^` is bitwise exclusive or (`Xor`, `XorU64`). */
module CppInt {

  const TWO_15: int := 0x8000
  const TWO_16: int := 0x1_0000
  const TWO_63: int := 0x8000_0000_0000_0000
  const TWO_64: int := 0x1_0000_0000_0000_0000

  /** `s16` */
  type S16 = x: int | -0x8000 <= x < 0x8000
  /** `u16` */
  type U16 = x: int | 0 <= x < 0x1_0000
  /** `s64` */
  type S64 = x: int | -0x8000_0000_0000_0000 <= x < 0x8000_0000_0000_0000
  /** `size_t`, fixed at 64 bits */
  type U64 = x: int | 0 <= x < 0x1_0000_0000_0000_0000

  function Pow2(n: nat): (r: nat)
    ensures r > 0
  {
    if n == 0 then 1 else 2 * Pow2(n - 1)
  }

  /** The powers of two that the shifts and masks of the core use. */
  lemma Pow2Values()
    ensures Pow2(12) == 0x1000 && Pow2(16) == 0x1_0000 && Pow2(24) == 0x100_0000
    ensures Pow2(32) == 0x1_0000_0000 && Pow2(36) == 0x10_0000_0000
    ensures Pow2(48) == 0x1_0000_0000_0000 && Pow2(64) == 0x1_0000_0000_0000_0000
  {
    assert Pow2(4) == 0x10;
    assert Pow2(8) == 0x100;
    assert Pow2(12) == 0x1000;
    assert Pow2(16) == 0x1_0000;
    assert Pow2(24) == 0x100_0000;
    assert Pow2(32) == 0x1_0000_0000;
    assert Pow2(36) == 0x10_0000_0000;
    assert Pow2(40) == 0x100_0000_0000;
    assert Pow2(48) == 0x1_0000_0000_0000;
    assert Pow2(56) == 0x100_0000_0000_0000;
  }

  /** `(u16)x`: the unique u16 congruent to x modulo 2^16. */
  function ToU16(x: int): (u: U16)
    ensures (u - x) % TWO_16 == 0
  {
    x % TWO_16
  }

  /** `(s16)x`: the unique s16 congruent to x modulo 2^16. */
  function ToS16(x: int): (s: S16)
    ensures (s - x) % TWO_16 == 0
    ensures -TWO_15 <= x < TWO_15 ==> s == x
  {
    var u := x % TWO_16;
    if u < TWO_15 then u else u - TWO_16
  }

  /** `(s64)x`: the unique s64 congruent to x modulo 2^64. */
  function ToS64(x: int): (s: S64)
    ensures (s - x) % TWO_64 == 0
    ensures -TWO_63 <= x < TWO_63 ==> s == x
  {
    var u := x % TWO_64;
    if u < TWO_63 then u else u - TWO_64
  }

  /** `x << n` on s64 (C++20: the product, wrapped). */
  function ShlS64(x: S64, n: nat): (r: S64)
    requires n < 64
    ensures (r - x * Pow2(n)) % TWO_64 == 0
    ensures -TWO_63 <= x * Pow2(n) < TWO_63 ==> r == x * Pow2(n)
  {
    ToS64(x * Pow2(n))
  }

  /** `x >> n` on s64: an arithmetic shift, rounding towards minus infinity. */
  function ShrS64(x: S64, n: nat): (r: S64)
    requires n < 64
    ensures r * Pow2(n) <= x < (r + 1) * Pow2(n)
  {
    x / Pow2(n)
  }

  /** `x & (2^k - 1)` on a two's-complement integer: its low k bits. */
  function LowBits(x: int, k: nat): (r: int)
    ensures 0 <= r < Pow2(k)
    ensures (x - r) % Pow2(k) == 0
  {
    DivModOf(x - x % Pow2(k), x / Pow2(k), 0, Pow2(k));
    x % Pow2(k)
  }

  /** `x << n` on size_t: the product modulo 2^64, the product itself when
      nothing is shifted out. */
  function ShlU64(x: U64, n: nat): (r: U64)
    ensures x * Pow2(n) < TWO_64 ==> r == x * Pow2(n)
  {
    x * Pow2(n) % TWO_64
  }

  /** Bitwise exclusive or of two naturals, bit by bit from the lowest. It is
      addition without carries, so it never exceeds the sum. */
  function Xor(a: nat, b: nat): (r: nat)
    ensures r <= a + b
    decreases a + b
  {
    if a == 0 && b == 0 then 0
    else 2 * Xor(a / 2, b / 2) + (if a % 2 == b % 2 then 0 else 1)
  }

  /** `a ^ b` on size_t. */
  function XorU64(a: U64, b: U64): (r: U64)
    ensures Xor(r, b) == a
  {
    Pow2Values();
    XorBelow(a, b, 64);
    XorCancel(a, b);
    Xor(a, b)
  }

  // ---------------------------------------------------------------------------
  // Conversions

  /** Reinterpreting an s16 as its u16 bit pattern and back is the identity. */
  lemma S16BitPattern(x: S16)
    ensures ToS16(ToU16(x)) == x
    ensures x >= 0 ==> ToU16(x) == x
    ensures x < 0 ==> ToU16(x) == x + TWO_16
  {}

  /** Reinterpreting a u16 bit pattern as an s16 and back is the identity. */
  lemma U16BitPattern(u: U16)
    ensures ToU16(ToS16(u)) == u
  {}

  /** Distinct s16 values have distinct u16 bit patterns. */
  lemma ToU16Injective(x: S16, y: S16)
    ensures ToU16(x) == ToU16(y) <==> x == y
  {
    S16BitPattern(x);
    S16BitPattern(y);
  }

  // ---------------------------------------------------------------------------
  // Division and remainder

  lemma MulBound(d: int, k: int)
    requires k > 0
    ensures d >= 1 ==> d * k >= k
    ensures d <= -1 ==> d * k <= -k
  {
    if d >= 1 {
      assert d * k == (d - 1) * k + k;
    } else if d <= -1 {
      assert d * k == -((-d - 1) * k) - k;
    }
  }

  /** Quotient and remainder are unique: x == q * k + r with 0 <= r < k fixes both. */
  lemma DivModOf(x: int, q: int, r: int, k: int)
    requires k > 0 && 0 <= r < k && x == q * k + r
    ensures x / k == q && x % k == r
  {
    var d := q - x / k;
    assert d * k == x % k - r by {
      assert x == (x / k) * k + x % k;
      assert q * k - (x / k) * k == d * k;
    }
    MulBound(d, k);
  }

  /** Four 16-bit lanes packed as t * 2^48 + c * 2^32 + b * 2^16 + a, the top
      lane t possibly negative, are read back by floor division and remainder. */
  lemma UnpackLanes(t: int, c: U16, b: U16, a: U16)
    ensures var k := t * 0x1_0000_0000_0000 + c * 0x1_0000_0000 + b * 0x1_0000 + a;
      && k % TWO_16 == a
      && k / 0x1_0000 == (t * TWO_16 + c) * TWO_16 + b
      && k / 0x1_0000 % TWO_16 == b
      && k / 0x1_0000_0000 == t * TWO_16 + c
      && k / 0x1_0000_0000 % TWO_16 == c
      && k / 0x1_0000_0000_0000 == t
  {
    var k := t * 0x1_0000_0000_0000 + c * 0x1_0000_0000 + b * 0x1_0000 + a;
    var tc := t * TWO_16 + c;
    var tcb := tc * TWO_16 + b;
    assert k / 0x1_0000 == tcb && k % TWO_16 == a by {
      DivModOf(k, tcb, a, TWO_16);
    }
    assert tcb % TWO_16 == b by {
      DivModOf(tcb, tc, b, TWO_16);
    }
    assert k / 0x1_0000_0000 == tc by {
      DivModOf(k, tc, b * 0x1_0000 + a, 0x1_0000_0000);
    }
    assert tc % TWO_16 == c by {
      DivModOf(tc, t, c, TWO_16);
    }
    assert k / 0x1_0000_0000_0000 == t by {
      DivModOf(k, t, c * 0x1_0000_0000 + b * 0x1_0000 + a, 0x1_0000_0000_0000);
    }
  }

  // ---------------------------------------------------------------------------
  // Exclusive or of disjoint bit lanes

  lemma XorZero(a: nat)
    ensures Xor(a, 0) == a
  {
    if a != 0 {
      XorZero(a / 2);
    }
  }

  lemma XorDouble(u: nat, v: nat)
    ensures Xor(2 * u, 2 * v) == 2 * Xor(u, v)
  {
    if u != 0 || v != 0 {
      assert (2 * u) / 2 == u && (2 * u) % 2 == 0;
      assert (2 * v) / 2 == v && (2 * v) % 2 == 0;
    }
  }

  lemma MulPow2Succ(x: nat, k: nat)
    requires k > 0
    ensures x * Pow2(k) == 2 * (x * Pow2(k - 1))
  {}

  /** A value below 2^k occupies only the lane under a * 2^k, so or-ing
      it in by exclusive or is addition. */
  lemma {:induction false} XorLow(a: nat, b: nat, k: nat)
    requires b < Pow2(k)
    ensures Xor(a * Pow2(k), b) == a * Pow2(k) + b
  {
    if k == 0 {
      XorZero(a);
    } else {
      MulPow2Succ(a, k);
      var h := a * Pow2(k - 1);
      if h != 0 || b != 0 {
        XorLow(a, b / 2, k - 1);
        assert (2 * h) / 2 == h && (2 * h) % 2 == 0;
      }
    }
  }

  /** Exclusive or commutes with a left shift of both operands. */
  lemma {:induction false} XorScale(a: nat, b: nat, k: nat)
    ensures Xor(a * Pow2(k), b * Pow2(k)) == Xor(a, b) * Pow2(k)
  {
    if k == 0 {
      assert Pow2(k) == 1;
    } else {
      MulPow2Succ(a, k);
      MulPow2Succ(b, k);
      MulPow2Succ(Xor(a, b), k);
      XorDouble(a * Pow2(k - 1), b * Pow2(k - 1));
      XorScale(a, b, k - 1);
    }
  }

  /** A lane appended below hi and the pair shifted left by s: the exclusive or
      of the shifted parts is their sum. */
  lemma XorAppendLane(hi: nat, lo: nat, k: nat, s: nat)
    requires lo < Pow2(k)
    ensures Xor(hi * Pow2(k) * Pow2(s), lo * Pow2(s)) == (hi * Pow2(k) + lo) * Pow2(s)
  {
    XorScale(hi * Pow2(k), lo, s);
    XorLow(hi, lo, k);
  }

  /** Exclusive or of two k-bit values is a k-bit value. */
  lemma {:induction false} XorBelow(a: nat, b: nat, k: nat)
    requires a < Pow2(k) && b < Pow2(k)
    ensures Xor(a, b) < Pow2(k)
  {
    if k > 0 && (a != 0 || b != 0) {
      XorBelow(a / 2, b / 2, k - 1);
    }
  }

  /** Exclusive or with the same value twice cancels out. */
  lemma {:induction false} XorCancel(a: nat, b: nat)
    ensures Xor(Xor(a, b), b) == a
    decreases a + b
  {
    if a != 0 || b != 0 {
      XorCancel(a / 2, b / 2);
      var x := Xor(a, b);
      assert x / 2 == Xor(a / 2, b / 2) && x % 2 == (if a % 2 == b % 2 then 0 else 1);
    }
  }
}
