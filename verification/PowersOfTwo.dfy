/** Powers of two over the naturals and, for negative exponents, over the reals. */
module PowersOfTwo {

  function Pow2(n: nat): (p: nat)
    ensures p > 0
  {
    if n == 0 then 1 else 2 * Pow2(n - 1)
  }

  const T32 := 0x1_0000_0000
  const T63 := 0x8000_0000_0000_0000
  const T64 := 0x1_0000_0000_0000_0000
  const T127 := 0x8000_0000_0000_0000_0000_0000_0000_0000
  const T128 := 0x1_0000_0000_0000_0000_0000_0000_0000_0000

  /** The low 64 or 128 bits; the moduli are literals so that the solver sees a linear term. */
  function Low64(x: nat): (r: nat)
    ensures r < T64 && (x < T64 ==> r == x)
  {
    x % 0x1_0000_0000_0000_0000
  }

  function Low128(x: nat): (r: nat)
    ensures r < T128 && (x < T128 ==> r == x)
  {
    x % 0x1_0000_0000_0000_0000_0000_0000_0000_0000
  }

  /** A 64-bit number moved into the upper half of 128 bits. */
  function High(x: nat): (r: nat)
    ensures x < T64 ==> r < T128
  {
    x * 0x1_0000_0000_0000_0000
  }

  lemma {:induction false} Pow2Add(m: nat, n: nat)
    ensures Pow2(m + n) == Pow2(m) * Pow2(n)
  {
    if m > 0 {
      Pow2Add(m - 1, n);
    }
  }

  lemma {:induction false} Pow2Monotone(m: nat, n: nat)
    requires m <= n
    ensures Pow2(m) <= Pow2(n)
    ensures m < n ==> 2 * Pow2(m) <= Pow2(n)
    decreases n
  {
    if m < n {
      Pow2Monotone(m, n - 1);
    }
  }

  lemma Pow2Words()
    ensures Pow2(32) == T32 && Pow2(63) == T63 && Pow2(64) == T64
  {
    assert Pow2(4) == 16;
    Pow2Add(4, 4);
    assert Pow2(8) == 256;
    Pow2Add(8, 8);
    assert Pow2(16) == 65536;
    Pow2Add(16, 16);
    Pow2Add(32, 32);
    assert Pow2(64) == 2 * Pow2(63);
  }

  lemma Pow2DoubleWords()
    ensures Pow2(127) == T127 && Pow2(128) == T128
  {
    Pow2Words();
    Pow2Add(64, 64);
    assert Pow2(128) == 2 * Pow2(127);
  }

  /** Two to an integer power. */
  function Real2(e: int): (r: real)
    ensures r > 0.0
    decreases if e >= 0 then e else -e
  {
    if e == 0 then 1.0 else if e > 0 then 2.0 * Real2(e - 1) else Real2(e + 1) / 2.0
  }

  lemma Real2Succ(e: int)
    ensures Real2(e + 1) == 2.0 * Real2(e)
  {
  }

  lemma {:induction false} Real2OfNat(n: nat)
    ensures Real2(n) == Pow2(n) as real
  {
    if n > 0 {
      Real2OfNat(n - 1);
    }
  }

  ghost predicate IsProduct(z: real, x: real, y: real) {
    z == x * y
  }

  lemma UnitProduct(x: real)
    ensures IsProduct(x, x, 1.0)
  {
  }

  lemma DoubleProduct(x: real, y: real, y2: real, z: real, z2: real)
    requires y2 == 2.0 * y && z2 == 2.0 * z
    ensures IsProduct(z, x, y) <==> IsProduct(z2, x, y2)
  {
    assert x * (2.0 * y) == 2.0 * (x * y);
  }

  lemma {:induction false} Real2Add(a: int, b: int)
    ensures IsProduct(Real2(a + b), Real2(a), Real2(b))
    decreases if b >= 0 then b else -b
  {
    if b == 0 {
      UnitProduct(Real2(a));
    } else if b > 0 {
      Real2Add(a, b - 1);
      Real2Succ(a + b - 1);
      Real2Succ(b - 1);
      DoubleProduct(Real2(a), Real2(b - 1), Real2(b), Real2(a + b - 1), Real2(a + b));
    } else {
      Real2Add(a, b + 1);
      Real2Succ(a + b);
      Real2Succ(b);
      DoubleProduct(Real2(a), Real2(b), Real2(b + 1), Real2(a + b), Real2(a + b + 1));
    }
  }

  lemma Real2AddNat(e: int, n: nat)
    ensures Real2(e + n) == Real2(e) * Pow2(n) as real
  {
    Real2Add(e, n);
    Real2OfNat(n);
  }

  lemma {:induction false} Real2Monotone(a: int, b: int)
    requires a <= b
    ensures Real2(a) <= Real2(b)
    decreases b - a
  {
    if a < b {
      Real2Monotone(a, b - 1);
      Real2Succ(b - 1);
    }
  }

  /** The number of bits needed to write `x`. */
  function BitLength(x: nat): nat {
    if x == 0 then 0 else 1 + BitLength(x / 2)
  }

  lemma {:induction false} BitLengthBounds(x: nat)
    requires x > 0
    ensures BitLength(x) > 0
    ensures Pow2(BitLength(x) - 1) <= x < Pow2(BitLength(x))
    decreases x
  {
    if x > 1 {
      BitLengthBounds(x / 2);
    }
  }

  lemma BitLengthAtMost(x: nat, n: nat)
    requires x < Pow2(n)
    ensures BitLength(x) <= n
  {
    if x > 0 {
      BitLengthBounds(x);
      if BitLength(x) > n {
        Pow2Monotone(n, BitLength(x) - 1);
      }
    }
  }

  lemma BitLengthAtLeast(x: nat, n: nat)
    requires Pow2(n) <= x
    ensures BitLength(x) > n
  {
    BitLengthBounds(x);
    if BitLength(x) <= n {
      Pow2Monotone(BitLength(x), n);
    }
  }

  lemma MulLe(x: nat, y: nat, m: nat, n: nat)
    requires x <= m && y <= n
    ensures x * y <= m * n
  {
    assert x * (n - y) >= 0;
    assert (m - x) * n >= 0;
  }

  lemma MultipleBound(x: int, d: int)
    requires d > 0
    ensures x >= 1 ==> x * d >= d
    ensures x <= -1 ==> x * d <= -d
  {
  }

  lemma DivUnique(i: nat, d: nat, q: nat, r: nat)
    requires d > 0 && i == q * d + r && r < d
    ensures i / d == q && i % d == r
  {
    var q', r' := i / d, i % d;
    assert i == q' * d + r';
    assert (q - q') * d == r' - r;
    MultipleBound(q - q', d);
  }

  /** Whole-number division by a positive number. */
  function Over(x: nat, d: nat): (q: nat)
    requires d > 0
    ensures q * d <= x < q * d + d
  {
    assert x == (x / d) * d + x % d;
    x / d
  }

  // ----- shifts, one bit at a time -----

  function Shr(x: nat, n: nat): (r: nat)
    ensures r <= x
    ensures n > 0 ==> 2 * r <= x
    decreases n
  {
    if n == 0 then x else Shr(x / 2, n - 1)
  }

  function Shl(x: nat, n: nat): (r: nat)
    ensures r >= x
    decreases n
  {
    if n == 0 then x else 2 * Shl(x, n - 1)
  }

  /** The lowest `n` bits. */
  function LowBits(x: nat, n: nat): (r: nat)
    ensures r < Pow2(n) && r <= x
    decreases n
  {
    if n == 0 then 0 else x % 2 + 2 * LowBits(x / 2, n - 1)
  }

  lemma TwiceTimes(x: int, y: int)
    ensures x * (2 * y) == 2 * (x * y)
  {
  }

  lemma {:induction false} SplitBits(x: nat, n: nat)
    ensures x == Shr(x, n) * Pow2(n) + LowBits(x, n)
    decreases n
  {
    if n > 0 {
      SplitBits(x / 2, n - 1);
      TwiceTimes(Shr(x / 2, n - 1), Pow2(n - 1));
    }
  }

  lemma {:induction false} ShlIsMul(x: nat, n: nat)
    ensures Shl(x, n) == x * Pow2(n)
    decreases n
  {
    if n > 0 {
      ShlIsMul(x, n - 1);
      TwiceTimes(x, Pow2(n - 1));
    }
  }

  lemma {:induction false} ZeroShl(n: nat)
    ensures Shl(0, n) == 0
  {
    if n > 0 {
      ZeroShl(n - 1);
    }
  }

  /** One more bit: the guard bit is the lowest bit of the shorter shift. */
  lemma {:induction false} ShrStep(x: nat, n: nat)
    ensures Shr(x, n + 1) == Shr(x, n) / 2
    ensures LowBits(x, n + 1) == LowBits(x, n) + (if Shr(x, n) % 2 == 1 then Pow2(n) else 0)
    decreases n
  {
    if n > 0 {
      ShrStep(x / 2, n - 1);
    }
  }

  /** Bitwise exclusive or. */
  function Xor(x: nat, y: nat): nat {
    if x == 0 && y == 0 then 0 else (x + y) % 2 + 2 * Xor(x / 2, y / 2)
  }

  lemma {:induction false} XorBelow(x: nat, y: nat, bits: nat)
    requires x < Pow2(bits) && y < Pow2(bits)
    ensures Xor(x, y) < Pow2(bits)
    decreases bits
  {
    if bits > 0 && !(x == 0 && y == 0) {
      XorBelow(x / 2, y / 2, bits - 1);
    }
  }
}
