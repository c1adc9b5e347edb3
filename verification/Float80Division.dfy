/** f80_div against the exact quotient. */
module Float80Division {
  import opened PowersOfTwo
  import opened Float80
  import opened Float80Rounding
  import opened Float80Values
  import opened Float80Normalize
  import opened Float80Range

  // ----- the 128-bit quotient against the exact one -----

  lemma FirstQuotient(a: U64, b: U64)
    requires a > 0 && b > 0
    ensures var f := Over(High(a), b);
            0 < f < T128 && High(a) == f * b + High(a) % b && 0 <= High(a) % b < b
  {
    var f := Over(High(a), b);
    DivUnique(High(a), b, f, High(a) - f * b);
    QuotientBelow(a, b);
  }

  lemma ExtraBits(f: U128)
    requires f > 0
    ensures T127 <= f * Pow2(Clz128(f)) && (f + 1) * Pow2(Clz128(f)) <= T128
  {
    Pow2DoubleWords();
    ClzFills(f);
    ShlIsMul(f, Clz128(f));
    BitLengthBounds(f);
    BitLengthAtMost(f, 128);
    Pow2Add(BitLength(f), Clz128(f));
    MulLe(f + 1, Pow2(Clz128(f)), Pow2(BitLength(f)), Pow2(Clz128(f)));
  }

  /** Extending a quotient by `z` bits drawn from its remainder is dividing with `z` more bits. */
  lemma ExtendedQuotient(n: nat, f: nat, b: nat, rest: nat, p: nat, t: nat)
    requires n == f * b + rest && rest < b && t * b <= rest * p < t * b + b
    ensures (f * p + t) * b <= n * p < (f * p + t) * b + b
  {
    assert n * p == (f * b) * p + rest * p;
    assert (f * p + t) * b == (f * b) * p + t * b;
  }

  /** The dividend of the extended division. */
  ghost function Dividend(a: U64, b: U64): nat
    requires b > 0
  {
    High(a) * Pow2(Quotient(a, b).1)
  }

  /** The remainder keeps all its bits when it is shifted left for the extra bits of the quotient. */
  predicate RemainderFits(a: U64, b: U64)
    requires b > 0
  {
    High(a) % b * Pow2(Quotient(a, b).1) < T128
  }

  /** Where the extended quotient comes from. */
  lemma QuotientParts(a: U64, b: U64, f: U128, rest: nat, z: nat, t: nat)
    requires a > 0 && b > 0
    requires f == Over(High(a), b) && rest == High(a) % b && z == Quotient(a, b).1
    requires t == Over(Low128(rest * Pow2(z)), b)
    ensures 0 < f && High(a) == f * b + rest && rest < b
    ensures T127 <= f * Pow2(z) && (f + 1) * Pow2(z) <= T128
    ensures t < Pow2(z) && Quotient(a, b).0 == f * Pow2(z) + t
  {
    hide Clz128, Over;
    FirstQuotient(a, b);
    ExtraBits(f);
    ShlIsMul(f, z);
    ShlIsMul(rest, z);
    NextMultiple(f, Pow2(z));
    BelowDivisor(rest, Pow2(z), b, t);
  }

  lemma BelowDivisor(rest: nat, p: nat, b: nat, t: nat)
    requires rest < b && p > 0 && t * b <= rest * p
    ensures t < p
  {
    if t >= p {
      MulLe(p, b, t, b);
      MulLe(rest + 1, p, b, p);
      NextMultiple(rest, p);
    }
  }

  /** The 128 bits f80_div computes are the exact floor, left-aligned, if the remainder fits. */
  lemma QuotientIsFloor(a: U64, b: U64)
    requires a > 0 && b > 0 && RemainderFits(a, b)
    ensures T127 <= Quotient(a, b).0
    ensures Quotient(a, b).0 * b <= Dividend(a, b) < Quotient(a, b).0 * b + b
  {
    hide Quotient;
    var f, rest, z := Over(High(a), b), High(a) % b, Quotient(a, b).1;
    QuotientBelow(a, b);
    var t := Over(Low128(rest * Pow2(z)), b);
    QuotientParts(a, b, f, rest, z, t);
    ExtendedQuotient(High(a), f, b, rest, Pow2(z), t);
  }

  /** The remainder of a normal dividend always fits. */
  lemma NormalDividendFits(a: U64, b: U64)
    requires a >= T63 && b > 0
    ensures Quotient(a, b).1 <= 64 && RemainderFits(a, b)
  {
    hide Pow2, BitLength;
    var f, rest := Over(High(a), b), High(a) % b;
    FirstQuotient(a, b);
    if f < T63 {
      MulLe(f + 1, b, T63, T64 - 1);
      NextMultiple(f, b);
    }
    Pow2Words();
    BitLengthAtLeast(f, 63);
    Pow2Monotone(Clz128(f), 64);
    MulLe(rest, Pow2(Clz128(f)), T64 - 1, T64);
  }

  /** If it does not fit, they fall short by more than a unit of the result. */
  lemma QuotientFallsShort(a: U64, b: U64)
    requires a > 0 && b > 0 && !RemainderFits(a, b)
    ensures T127 <= Quotient(a, b).0
    ensures Quotient(a, b).0 * b + 0x1_0000_0000_0000_0000 * b < Dividend(a, b)
  {
    hide Quotient;
    var f, rest, z := Over(High(a), b), High(a) % b, Quotient(a, b).1;
    QuotientBelow(a, b);
    var p := Pow2(z);
    var t := Over(Low128(rest * p), b);
    QuotientParts(a, b, f, rest, z, t);
    assert Low128(rest * p) <= rest * p - T128;
    ShortSum(High(a), f, b, rest, p, t);
  }

  lemma ShortSum(n: nat, f: nat, b: nat, rest: nat, p: nat, t: nat)
    requires n == f * b + rest && t * b <= rest * p - T128 && b < T64
    ensures (f * p + t) * b + 0x1_0000_0000_0000_0000 * b < n * p
  {
    assert n * p == (f * b) * p + rest * p;
    assert (f * p + t) * b == (f * b) * p + t * b;
  }

  /** Either way the exact quotient has 128 bits before its point. */
  lemma DividendBounds(a: U64, b: U64)
    requires a > 0 && b > 0
    ensures T127 * b <= Dividend(a, b) < T128 * b
  {
    hide Quotient;
    var f, rest, z := Over(High(a), b), High(a) % b, Quotient(a, b).1;
    QuotientBelow(a, b);
    var p := Pow2(z);
    QuotientParts(a, b, f, rest, z, Over(Low128(rest * p), b));
    ProductBounds(High(a), f, b, rest, p, f * p);
  }

  lemma ProductBounds(n: nat, f: nat, b: nat, rest: nat, p: nat, fp: nat)
    requires n == f * b + rest && rest < b && p > 0 && fp == f * p && T127 <= fp && (f + 1) * p <= T128
    ensures T127 * b <= n * p < T128 * b
  {
    MulMonotone(T127, fp, b);
    MulMonotone(fp + p, T128, b);
    assert n * p == (f * b) * p + rest * p;
    assert (f * b) * p == fp * b;
    assert (fp + p) * b == fp * b + p * b;
    MulLe(rest + 1, p, b, p);
    NextMultiple(rest, p);
  }

  // ----- rounding the floor instead of the quotient -----

  /**
   The dividend, doubled, leaves remainder one on a divisor above 2^63, and the quotient
   is one modulo four: the exact quotient then lies just above a tie.
   */
  predicate NearTie(a: U64, b: U64)
    requires b > 0
  {
    var w := 2 * Shl(a, Quotient(a, b).1);
    b > T63 && w % b == 1 && Over(w, b) % 4 == 1
  }

  /** Rounding the floor `s` of n / b rounds n / b itself, but for a tie of `s` that hides a remainder. */
  lemma FloorRoundsIff(n: int, b: int, s: int, m: int, even: bool, sign: bool, mode: Mode)
    requires b > 0 && s * b <= n < s * b + b
    requires RoundsToMultiple(s, T64, m, even, sign, mode)
    requires s == m ==> n == s * b
    ensures RoundsToMultiple(n, 0x1_0000_0000_0000_0000 * b, m * b, even, sign, mode) <==>
            !(mode == Nearest && 2 * (s - m) == T64 && n != s * b)
  {
    SubTimes(s, m, b);
    ScaledBounds(s - m, b);
    LinearFloor(n, b, s - m, (s - m) * b, m * b, even, sign, mode);
  }

  /** The same with the products named: `ub` is u * b and `mb` is m * b. */
  lemma LinearFloor(n: int, b: int, u: int, ub: int, mb: int, even: bool, sign: bool, mode: Mode)
    requires b > 0 && mb + ub <= n < mb + ub + b
    requires RoundsToMultiple(u, T64, 0, even, sign, mode)
    requires u == 0 ==> n == mb && ub == 0
    requires u >= 1 ==> ub >= b
    requires u <= -1 ==> ub <= -b
    requires u < T64 ==> ub <= 0x1_0000_0000_0000_0000 * b - b
    requires u > -T64 ==> ub >= b - 0x1_0000_0000_0000_0000 * b
    requires u < T63 ==> ub <= 0x8000_0000_0000_0000 * b - b
    requires u >= -T63 ==> ub >= -0x8000_0000_0000_0000 * b
    requires u > -T63 ==> ub >= b - 0x8000_0000_0000_0000 * b
    requires u == T63 ==> ub == 0x8000_0000_0000_0000 * b
    ensures RoundsToMultiple(n, 0x1_0000_0000_0000_0000 * b, mb, even, sign, mode) <==>
            !(mode == Nearest && 2 * u == T64 && n != mb + ub)
  {
  }

  /** The remainder of the extended division, written with the two halves of the quotient. */
  lemma RemainderShape(a: U64, b: U64) returns (c: int)
    requires a > 0 && b > 0
    ensures var s := Quotient(a, b).0; var h, low := s / 0x1_0000_0000_0000_0000, s % 0x1_0000_0000_0000_0000;
            && Dividend(a, b) - s * b == c * 0x1_0000_0000_0000_0000 - low * b
            && c == Shl(a, Quotient(a, b).1) - h * b
            && Dividend(a, b) == Shl(a, Quotient(a, b).1) * 0x1_0000_0000_0000_0000
  {
    hide Quotient, Pow2, Shl;
    var (s, z) := Quotient(a, b);
    var h, low := s / 0x1_0000_0000_0000_0000, s % 0x1_0000_0000_0000_0000;
    ShlIsMul(a, z);
    HighTimes(a, Pow2(z));
    SplitTimes(h, low, b);
    c := Shl(a, z) - h * b;
  }

  lemma HighTimes(a: nat, p: nat)
    ensures High(a) * p == (a * p) * 0x1_0000_0000_0000_0000
  {
  }

  lemma SplitTimes(h: nat, low: nat, b: nat)
    ensures (h * 0x1_0000_0000_0000_0000 + low) * b == (h * b) * 0x1_0000_0000_0000_0000 + low * b
  {
  }

  /** A nonzero remainder forces a nonzero low half. */
  lemma LowHalfZeroIsExact(a: U64, b: U64)
    requires a > 0 && b > 0 && RemainderFits(a, b)
    ensures Quotient(a, b).0 % 0x1_0000_0000_0000_0000 == 0 ==> Dividend(a, b) == Quotient(a, b).0 * b
  {
    hide Quotient, Dividend, RemainderFits;
    QuotientIsFloor(a, b);
    var c := RemainderShape(a, b);
  }

  /** A low half of exactly 2^63 over a nonzero remainder, with an even high half, is a near tie. */
  lemma HiddenTieIff(a: U64, b: U64)
    requires a > 0 && b % 2 == 1 && RemainderFits(a, b)
    ensures HidesRemainder(Quotient(a, b).0, Dividend(a, b), b) <==> NearTie(a, b)
  {
    hide Quotient, Dividend, Shl, RemainderFits;
    QuotientIsFloor(a, b);
    var c := RemainderShape(a, b);
    var s, v := Quotient(a, b).0, Shl(a, Quotient(a, b).1);
    if HidesRemainder(s, Dividend(a, b), b) {
      TieToNearTie(c, s / 0x1_0000_0000_0000_0000, b, v, Dividend(a, b) - s * b);
    }
    if NearTie(a, b) {
      NearTieToTie(Dividend(a, b), b, v, s);
    }
  }

  predicate HidesRemainder(s: nat, n: nat, b: nat) {
    s % 0x1_0000_0000_0000_0000 == T63 && (s / 0x1_0000_0000_0000_0000) % 2 == 0 && n != s * b
  }

  lemma TieToNearTie(c: int, h: nat, b: nat, v: nat, rest: int)
    requires b % 2 == 1 && b < T64 && h % 2 == 0 && 0 < rest < b
    requires rest == c * 0x1_0000_0000_0000_0000 - T63 * b && c == v - h * b
    ensures b > T63 && (2 * v) % b == 1 && Over(2 * v, b) % 4 == 1
  {
    assert 2 * c - b == 1;
    OddMultiple(h, b);
    DivUnique(2 * v, b, 2 * h + 1, 1);
    FloorUnique(2 * v, b, Over(2 * v, b), 2 * h + 1);
  }

  lemma NearTieToTie(n: nat, b: nat, v: nat, s: nat)
    requires T63 < b && n == v * 0x1_0000_0000_0000_0000 && s * b <= n < s * b + b
    requires (2 * v) % b == 1 && Over(2 * v, b) % 4 == 1
    ensures HidesRemainder(s, n, b)
  {
    var q := Over(2 * v, b);
    DivUnique(2 * v, b, q, 2 * v - q * b);
    assert 2 * v == q * b + 1;
    HalfScale(q, b);
    FloorUnique(n, b, s, q * 0x8000_0000_0000_0000);
    var j := q / 4;
    assert s == (2 * j) * 0x1_0000_0000_0000_0000 + 0x8000_0000_0000_0000;
  }

  lemma OddMultiple(h: nat, b: nat)
    ensures (2 * h + 1) * b == 2 * (h * b) + b
  {
  }

  lemma HalfScale(q: nat, b: nat)
    ensures (q * 0x8000_0000_0000_0000) * b == (q * b) * 0x8000_0000_0000_0000
  {
  }

  lemma FloorUnique(n: nat, b: nat, s: nat, t: nat)
    requires b > 0 && s * b <= n < s * b + b && t * b <= n < t * b + b
    ensures s == t
  {
    DivUnique(n, b, s, n - s * b);
    DivUnique(n, b, t, n - t * b);
  }

  lemma TieIff(s: U128, k: nat, sign: bool)
    requires RoundsToMultiple(s, T64, High(k), k % 2 == 0, sign, Nearest)
    ensures 2 * (s - High(k)) == T64 <==> s % 0x1_0000_0000_0000_0000 == T63 && (s / 0x1_0000_0000_0000_0000) % 2 == 0
  {
    var h, low := s / 0x1_0000_0000_0000_0000, s % 0x1_0000_0000_0000_0000;
    assert s == High(h) + low;
    assert k == h || k == h + 1;
  }

  /** Rounding a number that falls short of n / b by more than a unit rounds n / b in no mode. */
  lemma ShortNeverRounds(n: int, b: int, s: int, m: int, even: bool, sign: bool, mode: Mode)
    requires b > 0 && s * b + 0x1_0000_0000_0000_0000 * b < n
    requires RoundsToMultiple(s, T64, m, even, sign, mode)
    ensures !RoundsToMultiple(n, 0x1_0000_0000_0000_0000 * b, m * b, even, sign, mode)
  {
    SubTimes(m, s, b);
    ScaledBounds(m - s, b);
    LinearShort(n, b, m - s, (m - s) * b, m * b, even, sign, mode);
  }

  lemma LinearShort(n: int, b: int, u: int, ub: int, mb: int, even: bool, sign: bool, mode: Mode)
    requires b > 0 && mb - ub + 0x1_0000_0000_0000_0000 * b < n
    requires RoundsToMultiple(0, T64, u, even, sign, mode)
    requires u == 0 ==> ub == 0
    requires u <= -1 ==> ub <= -b
    requires u < T64 ==> ub <= 0x1_0000_0000_0000_0000 * b - b
    requires u < T63 ==> ub <= 0x8000_0000_0000_0000 * b - b
    requires u == T63 ==> ub == 0x8000_0000_0000_0000 * b
    ensures !RoundsToMultiple(n, 0x1_0000_0000_0000_0000 * b, mb, even, sign, mode)
  {
  }

  /**
   The rounded upper half of the computed quotient rounds the exact quotient, unless the
   remainder did not fit or the exact quotient is a near tie.
   */
  lemma QuotientRoundsIff(a: U64, b: U64, sign: bool, mode: Mode)
    requires a > 0 && b % 2 == 1
    ensures var k := ShiftRightRound(Quotient(a, b).0, 64, sign, mode);
            RoundsToMultiple(Dividend(a, b), 0x1_0000_0000_0000_0000 * b, High(k) * b, k % 2 == 0, sign, mode) <==>
            RemainderFits(a, b) && !(mode == Nearest && NearTie(a, b))
  {
    hide Quotient, Dividend, NearTie, ShiftRightRound, RemainderFits;
    var s := Quotient(a, b).0;
    var k := ShiftRightRound(s, 64, sign, mode);
    if RemainderFits(a, b) {
      QuotientIsFloor(a, b);
      UpperHalf(s, sign, mode);
      LowHalfZeroIsExact(a, b);
      FloorRoundsIff(Dividend(a, b), b, s, High(k), k % 2 == 0, sign, mode);
      HiddenTieIff(a, b);
      if mode == Nearest {
        TieIff(s, k, sign);
      }
    } else {
      QuotientFallsShort(a, b);
      UpperHalf(s, sign, mode);
      ShortNeverRounds(Dividend(a, b), b, s, High(k), k % 2 == 0, sign, mode);
    }
  }

  // ----- scaling to the floats -----

  lemma CancelFactor(x: real, y: real, r: real)
    requires r > 0.0 && x * r == y * r
    ensures x == y
  {
    assert (x - y) * r == 0.0;
  }

  lemma QuotientAlgebra(x: real, o: real, r: real, a: real, y: real)
    requires o > 0.0 && r > 0.0 && x * (o * r) == a * r && y * o == a
    ensures x == y
  {
    assert (x * o) * r == a * r;
    CancelFactor(x * o, a, r);
    CancelFactor(x, y, o);
  }

  lemma SplitMagnitude(f: F80, e: int)
    ensures Magnitude(f) == Times(f.signif, Real2(QuantumExp(f) - e)) * Real2(e)
  {
    hide Real2;
    Real2Add(QuantumExp(f) - e, e);
    TimesFactor(f.signif, Real2(QuantumExp(f) - e), Real2(e));
  }

  lemma TimesFactor(s: int, p: real, r: real)
    ensures Times(s, p * r) == Times(s, p) * r
  {
  }

  /** The exact quotient as a multiple of `c`, the odd-th part of the lowest quotient bit. */
  lemma ExactQuotient(a: F80, b: F80, x: real, odd: nat, t: nat, z: nat, c: real)
    requires b.signif == odd * Pow2(t) && odd > 0
    requires x * Magnitude(b) == Magnitude(a)
    requires c * odd as real == Real2(QuantumExp(a) - QuantumExp(b) - t - z - 64)
    ensures x == Times(High(a.signif) * Pow2(z), c)
  {
    hide Real2, Pow2, High, QuantumExp;
    var qa, qb := QuantumExp(a), QuantumExp(b);
    var n := High(a.signif) * Pow2(z);
    TimesShift(odd, t, qb);
    SplitMagnitude(a, qb + t);
    DividendScaled(a.signif, z, qa - qb - t);
    TimesFactor(n, c, odd as real);
    QuotientAlgebra(x, odd as real, Real2(qb + t), Times(a.signif, Real2(qa - qb - t)), Times(n, c));
  }

  lemma DividendScaled(s: nat, z: nat, e: int)
    ensures Times(High(s) * Pow2(z), Real2(e - z - 64)) == Times(s, Real2(e))
  {
    hide Times, Real2;
    Pow2Words();
    TimesShift(High(s), z, e - z - 64);
    TimesShift(s, 64, e - 64);
    assert High(s) == s * Pow2(64);
  }

  lemma OddScale(m: int, odd: nat, c: real, r: real)
    requires c * odd as real == r
    ensures Times(m * odd, c) == Times(m, r)
  {
    assert (m * odd) as real == m as real * odd as real;
    assert m as real * (c * odd as real) == (m as real * odd as real) * c;
  }

  /** What f80_div divides by, and the exponent of the last place of its result. */
  function OddPart(b: F80): (o: U64)
    requires b.signif > 0
    ensures o % 2 == 1
  {
    OddPartPositive(b.signif);
    Shr(b.signif, TrailingZeros(b.signif))
  }

  function ResultQuantum(a: F80, b: F80): int
    requires b.signif > 0
  {
    QuantumExp(a) - QuantumExp(b) - TrailingZeros(b.signif) - Quotient(a.signif, OddPart(b)).1
  }

  lemma OddPartTimes(b: F80)
    requires b.signif > 0
    ensures b.signif == OddPart(b) * Pow2(TrailingZeros(b.signif))
  {
    OddPartPositive(b.signif);
    SplitBits(b.signif, TrailingZeros(b.signif));
  }

  /** The exact quotient as a multiple of the odd-th part of the lowest of its 128 bits. */
  lemma ScaledQuotient(a: F80, b: F80, x: real) returns (c: real)
    requires b.signif > 0 && x * Magnitude(b) == Magnitude(a)
    ensures c > 0.0 && c * OddPart(b) as real == Real2(ResultQuantum(a, b) - 64)
    ensures x == Times(Dividend(a.signif, OddPart(b)), c)
  {
    hide Quotient, Times, Real2, Pow2, OddPart, Magnitude, TrailingZeros, QuantumExp;
    var odd: int, z := OddPart(b), Quotient(a.signif, OddPart(b)).1;
    var r := Real2(ResultQuantum(a, b) - 64);
    c := r / odd as real;
    assert c * odd as real == r;
    OddPartTimes(b);
    ExactQuotient(a, b, x, odd, TrailingZeros(b.signif), z, c);
  }

  lemma HalfGrid(k: nat, e: int)
    ensures Times(T64, Real2(e - 64)) == Real2(e)
    ensures Times(High(k), Real2(e - 64)) == Times(k, Real2(e))
    ensures Times(T127, Real2(e - 64)) == Times(T63, Real2(e))
    ensures Times(T128, Real2(e - 64)) == Times(T63, Real2(e + 1))
  {
    hide Times, Real2;
    Pow2Words();
    TimesShift(k, 64, e - 64);
    TimesShift(T63, 64, e - 64);
    TimesShift(T64, 64, e - 64);
    CarryKeepsValue(e);
    assert High(k) == k * Pow2(64) && T63 * Pow2(64) == T127 && T64 * Pow2(64) == T128;
  }

  lemma QuotientBinade(a: F80, b: F80, x: real)
    requires a.signif > 0 && b.signif > 0 && x * Magnitude(b) == Magnitude(a)
    ensures Times(T63, Real2(ResultQuantum(a, b))) <= x < Times(T63, Real2(ResultQuantum(a, b) + 1))
  {
    hide Quotient, Dividend, Times, Real2, OddPart, Magnitude, ResultQuantum;
    var odd: int, e := OddPart(b), ResultQuantum(a, b);
    var c := ScaledQuotient(a, b, x);
    DividendBounds(a.signif, odd);
    TimesMonotone(T127 * odd, Dividend(a.signif, odd), c);
    TimesMonotone(Dividend(a.signif, odd), T128 * odd, c);
    OddScale(T127, odd, c, Real2(e - 64));
    OddScale(T128, odd, c, Real2(e - 64));
    HalfGrid(0, e);
  }

  /** When the digit the code keeps of a quotient in the normal range is the right one. */
  lemma QuotientOnGrid(a: F80, b: F80, x: real, sign: bool, mode: Mode)
    requires a.signif > 0 && b.signif > 0 && x * Magnitude(b) == Magnitude(a)
    ensures var e, k := ResultQuantum(a, b), ShiftRightRound(Quotient(a.signif, OddPart(b)).0, 64, sign, mode);
            RoundsOnGrid(x, Real2(e), Times(k, Real2(e)), k % 2 == 0, sign, mode) <==>
            RemainderFits(a.signif, OddPart(b)) && !(mode == Nearest && NearTie(a.signif, OddPart(b)))
  {
    hide Quotient, NearTie, ShiftRightRound, RoundsToMultiple, RoundsOnGrid, Times, Real2, Pow2, OddPart, Magnitude,
        Dividend, RemainderFits, ResultQuantum;
    var odd: int, e := OddPart(b), ResultQuantum(a, b);
    var k := ShiftRightRound(Quotient(a.signif, odd).0, 64, sign, mode);
    var c := ScaledQuotient(a, b, x);
    QuotientRoundsIff(a.signif, odd, sign, mode);
    ScaleRounding(Dividend(a.signif, odd), 0x1_0000_0000_0000_0000 * odd, High(k) * odd, k % 2 == 0, sign, mode, c);
    OddScale(T64, odd, c, Real2(e - 64));
    OddScale(High(k), odd, c, Real2(e - 64));
    HalfGrid(k, e);
  }

  // ----- quotients below the normal range -----

  ghost predicate SameSide(u: int, t: int, v: int, tb: int) {
    (u < t <==> v < tb) && (u == t <==> v == tb)
  }

  /** The floor `s` of n / b and n / b itself lie on the same side of m + t, if s hides no remainder there. */
  lemma Threshold(n: int, b: int, s: int, m: int, t: int, mb: int, tb: int)
    requires b > 0 && s * b <= n < s * b + b && mb == m * b && tb == t * b && (s == m + t ==> n == s * b)
    ensures SameSide(s - m, t, n - mb, tb)
  {
    var u := s - m - t;
    assert u * b == s * b - mb - tb;
    MultipleBound(u, b);
  }

  lemma Multiples(h: int, b: int, hb: int)
    requires hb == h * b
    ensures 0 == 0 * b && -hb == (-h) * b && 2 * hb == (2 * h) * b && -2 * hb == (-2 * h) * b
  {
  }

  lemma WholeSteps(s: int, m: int, h: int)
    requires m % 0x1_0000_0000_0000_0000 == 0 && h % 0x1_0000_0000_0000_0000 == 0
    ensures s == m || s == m + h || s == m - h || s == m + 2 * h || s == m - 2 * h ==>
            s % 0x1_0000_0000_0000_0000 == 0
  {
    var i, j := m / 0x1_0000_0000_0000_0000, h / 0x1_0000_0000_0000_0000;
    if s == m + h {
      WholeStep(s, i + j);
    } else if s == m - h {
      WholeStep(s, i - j);
    } else if s == m + 2 * h {
      WholeStep(s, i + 2 * j);
    } else if s == m - 2 * h {
      WholeStep(s, i - 2 * j);
    }
  }

  lemma WholeStep(s: int, i: int)
    requires s == i * 0x1_0000_0000_0000_0000
    ensures s % 0x1_0000_0000_0000_0000 == 0
  {
  }

  lemma AlikeOnBothSides(u: int, v: int, h: int, hb: int, even: bool, sign: bool, mode: Mode)
    requires SameSide(u, 0, v, 0) && SameSide(u, h, v, hb) && SameSide(u, -h, v, -hb)
    requires SameSide(u, 2 * h, v, 2 * hb) && SameSide(u, -2 * h, v, -2 * hb)
    ensures RoundsToMultiple(u, 2 * h, 0, even, sign, mode) <==> RoundsToMultiple(v, 2 * hb, 0, even, sign, mode)
  {
  }

  lemma Shifted(n: int, d: int, m: int, even: bool, sign: bool, mode: Mode)
    ensures RoundsToMultiple(n, d, m, even, sign, mode) <==> RoundsToMultiple(n - m, d, 0, even, sign, mode)
  {
  }

  /** One more bit below, and the floor rounds as the quotient does: there is no tie that hides a remainder. */
  lemma FloorRoundsAlike(n: int, b: int, s: int, m: int, h: int, mb: int, hb: int, even: bool, sign: bool, mode: Mode)
    requires b > 0 && s * b <= n < s * b + b && mb == m * b && hb == h * b
    requires s % 0x1_0000_0000_0000_0000 == 0 ==> n == s * b
    requires m % 0x1_0000_0000_0000_0000 == 0 && h % 0x1_0000_0000_0000_0000 == 0
    ensures RoundsToMultiple(s, 2 * h, m, even, sign, mode) <==> RoundsToMultiple(n, 2 * hb, mb, even, sign, mode)
  {
    hide SameSide, RoundsToMultiple;
    Multiples(h, b, hb);
    WholeSteps(s, m, h);
    Threshold(n, b, s, m, 0, mb, 0);
    Threshold(n, b, s, m, h, mb, hb);
    Threshold(n, b, s, m, -h, mb, -hb);
    Threshold(n, b, s, m, 2 * h, mb, 2 * hb);
    Threshold(n, b, s, m, -2 * h, mb, -2 * hb);
    AlikeOnBothSides(s - m, n - mb, h, hb, even, sign, mode);
    Shifted(s, 2 * h, m, even, sign, mode);
    Shifted(n, 2 * hb, mb, even, sign, mode);
  }

  lemma QuotientTwiceIff(a: U64, b: U64, n: nat, sign: bool, mode: Mode)
    requires a > 0 && b % 2 == 1 && n >= 1 && RemainderFits(a, b)
    ensures var s := Quotient(a, b).0;
            var k := ShiftRightRound(ShiftRightRound(s, n, sign, mode), 64, sign, mode);
            RoundsToMultiple(Dividend(a, b), (0x1_0000_0000_0000_0000 * Pow2(n)) * b, (High(k) * Pow2(n)) * b,
                             k % 2 == 0, sign, mode) <==>
            !RoundsTwice(s, n, sign, mode)
  {
    hide Quotient, Dividend, ShiftRightRound, RoundsTwice, RemainderFits, RoundsToMultiple;
    var s, p := Quotient(a, b).0, Pow2(n);
    var k := ShiftRightRound(ShiftRightRound(s, n, sign, mode), 64, sign, mode);
    QuotientIsFloor(a, b);
    LowHalfZeroIsExact(a, b);
    TwiceRoundedIff(s, n, sign, mode);
    var half := HalfStep(k, n);
    FloorRoundsAlike(Dividend(a, b), b, s, High(k) * p, half, (High(k) * p) * b, half * b, k % 2 == 0, sign, mode);
    Multiples(half, b, half * b);
  }

  lemma HalfStep(k: nat, n: nat) returns (half: nat)
    requires n >= 1
    ensures half % 0x1_0000_0000_0000_0000 == 0 && 2 * half == 0x1_0000_0000_0000_0000 * Pow2(n)
    ensures (High(k) * Pow2(n)) % 0x1_0000_0000_0000_0000 == 0
  {
    half := Pow2(n - 1) * 0x1_0000_0000_0000_0000;
    HighTimes(k, Pow2(n));
  }

  lemma QuotientBelowNormal(a: F80, b: F80, x: real, n: nat, sign: bool, mode: Mode)
    requires a.signif > 0 && b.signif > 0 && x * Magnitude(b) == Magnitude(a)
    requires n == MIN_QUANTUM - ResultQuantum(a, b) >= 1 && RemainderFits(a.signif, OddPart(b))
    ensures var s := Quotient(a.signif, OddPart(b)).0;
            var k := ShiftRightRound(ShiftRightRound(s, n, sign, mode), 64, sign, mode);
            RoundsOnGrid(x, Real2(MIN_QUANTUM), Times(k, Real2(MIN_QUANTUM)), k % 2 == 0, sign, mode) <==>
            !RoundsTwice(s, n, sign, mode)
  {
    hide Quotient, ShiftRightRound, RoundsToMultiple, RoundsOnGrid, Times, Real2, Pow2, OddPart, Magnitude, Dividend,
        RemainderFits, ResultQuantum, RoundsTwice;
    var odd: int, e, p := OddPart(b), ResultQuantum(a, b), Pow2(n);
    var s := Quotient(a.signif, odd).0;
    var k := ShiftRightRound(ShiftRightRound(s, n, sign, mode), 64, sign, mode);
    var c := ScaledQuotient(a, b, x);
    QuotientTwiceIff(a.signif, odd, n, sign, mode);
    ScaleRounding(Dividend(a.signif, odd), (0x1_0000_0000_0000_0000 * p) * odd, (High(k) * p) * odd, k % 2 == 0, sign,
        mode, c);
    OddScale(0x1_0000_0000_0000_0000 * p, odd, c, Real2(e - 64));
    OddScale(High(k) * p, odd, c, Real2(e - 64));
    TimesShift(T64, n, e - 64);
    TimesShift(High(k), n, e - 64);
    HalfGrid(k, MIN_QUANTUM);
  }

  // ----- f80_div -----

  lemma DivUnfolds(a: F80, b: F80, mode: Mode)
    requires Finite(a) && Finite(b) && b.signif > 0
    ensures Div(a, b, mode) ==
            NormalizeRound(Quotient(a.signif, OddPart(b)).0, ResultQuantum(a, b) + 63, a.sign != b.sign, mode)
              .(sign := a.sign != b.sign)
  {
    hide NormalizeRound, Quotient;
  }

  /** Where f80_div does not return what the standard asks for. */
  ghost predicate DivSpoils(a: F80, b: F80, mode: Mode, x: real)
    requires b.signif > 0
  {
    var sign, e, (s, z) := a.sign != b.sign, ResultQuantum(a, b), Quotient(a.signif, OddPart(b));
    if a.signif == 0 then e - 65 >= Unbias(EXP_MIN)
    else if e > MAX_QUANTUM then s == T127 && TowardZero(sign, mode)
    else if e >= MIN_QUANTUM then
      !RemainderFits(a.signif, OddPart(b)) || (mode == Nearest && NearTie(a.signif, OddPart(b)))
    else RoundsUpToNormal(x, sign, mode) || RoundsTwice(s, MIN_QUANTUM - e, sign, mode)
  }

  lemma FullLead(s: U128)
    requires s >= T127
    ensures Clz128(s) == 0
  {
    Pow2DoubleWords();
    BitLengthAtLeast(s, 127);
  }

  lemma QuotientFull(a: U64, b: U64)
    requires a > 0 && b > 0
    ensures Quotient(a, b).0 >= T127 && Clz128(Quotient(a, b).0) == 0
  {
    hide Quotient, Dividend, Clz128;
    if RemainderFits(a, b) { QuotientIsFloor(a, b); } else { QuotientFallsShort(a, b); }
    FullLead(Quotient(a, b).0);
  }

  lemma PositiveBelow(x: real, e: int)
    requires e < MIN_QUANTUM && Times(T63, Real2(e)) <= x < Times(T63, Real2(e + 1))
    ensures 0.0 < x < LeastNormal()
  {
    hide Times, Real2;
    TimesPositive(T63, Real2(e));
    BinadeOrder(e + 1, MIN_QUANTUM);
  }

  /** What u128_normalize_round makes of a quotient that fills 128 bits, against the exact one. */
  lemma QuotientNormalizes(a: F80, b: F80, mode: Mode, x: real, sign: bool)
    requires a.signif > 0 && b.signif > 0 && x * Magnitude(b) == Magnitude(a) && sign == (a.sign != b.sign)
    requires ResultQuantum(a, b) < MIN_QUANTUM ==> RemainderFits(a.signif, OddPart(b))
    ensures var s, e := Quotient(a.signif, OddPart(b)).0, ResultQuantum(a, b);
            Conforms(sign, x, mode, NormalizeRound(s, e + 63, sign, mode)) <==> !DivSpoils(a, b, mode, x)
  {
    hide Quotient, NearTie, ShiftRightRound, NormalizeRound, Pack, Conforms, RoundsOnGrid, Times, Real2, OddPart,
      ResultQuantum, Magnitude, LeastNormal, GreatestFinite, Clz128, RemainderFits, RoundsTwice, RoundsUpToNormal;
    var s, e := Quotient(a.signif, OddPart(b)).0, ResultQuantum(a, b);
    QuotientFull(a.signif, OddPart(b));
    QuotientBinade(a, b, x);
    if e > MAX_QUANTUM {
      OverflowConformsIff(s, e + 63, sign, mode, x);
    } else if e >= MIN_QUANTUM {
      QuotientOnGrid(a, b, x, sign, mode);
      PackedFull(s, e, sign, mode);
      UpperHalf(s, sign, mode);
      PackedOnGridIff(x, e, ShiftRightRound(s, 64, sign, mode), sign, mode);
    } else {
      QuotientBelowNormal(a, b, x, MIN_QUANTUM - e, sign, mode);
      PositiveBelow(x, e);
      TwiceKeptIff(s, e + 63, sign, mode, x);
    }
  }

  /**
   f80_div returns the exact quotient x of a finite number by a nonzero finite one as the standard
   asks, in every mode, but exactly there. The one case left open is a quotient below the normal
   range whose remainder does not fit.
   */
  lemma DivCorrectIff(a: F80, b: F80, mode: Mode, x: real)
    requires Finite(a) && Finite(b) && b.signif > 0 && x * Magnitude(b) == Magnitude(a)
    requires a.signif > 0 && x < LeastNormal() ==> RemainderFits(a.signif, OddPart(b))
    ensures Div(a, b, mode).sign == (a.sign != b.sign)
    ensures Conforms(a.sign != b.sign, x, mode, Div(a, b, mode)) <==> !DivSpoils(a, b, mode, x)
  {
    hide Quotient, NormalizeRound, Conforms, Times, Real2, OddPart, ResultQuantum, Magnitude, RemainderFits,
      RoundsTwice, RoundsUpToNormal, NearTie;
    DivUnfolds(a, b, mode);
    NormalizeRoundSign(Quotient(a.signif, OddPart(b)).0, ResultQuantum(a, b) + 63, a.sign != b.sign, mode);
    if a.signif == 0 {
      ZeroQuotient(a, b, x);
      ZeroConformsIff(ResultQuantum(a, b) + 63, a.sign != b.sign, mode);
    } else {
      QuotientBinade(a, b, x);
      if ResultQuantum(a, b) < MIN_QUANTUM { BinadeOrder(ResultQuantum(a, b) + 1, MIN_QUANTUM); }
      QuotientNormalizes(a, b, mode, x, a.sign != b.sign);
    }
  }

  /** In particular, for a quotient in the normal range. */
  lemma DivNormalIff(a: F80, b: F80, mode: Mode, x: real)
    requires Finite(a) && a.signif > 0 && Finite(b) && b.signif > 0
    requires x * Magnitude(b) == Magnitude(a) && LeastNormal() <= x <= GreatestFinite()
    ensures CorrectlyRounded(Signed(a.sign != b.sign, x), mode, Div(a, b, mode)) <==>
            RemainderFits(a.signif, OddPart(b)) && !(mode == Nearest && NearTie(a.signif, OddPart(b)))
  {
    hide Quotient, Div, CorrectlyRounded, Times, Real2, OddPart, ResultQuantum, Magnitude, RemainderFits,
      RoundsTwice, RoundsUpToNormal, NearTie, LeastNormal, GreatestFinite;
    DivCorrectIff(a, b, mode, x);
    QuotientBinade(a, b, x);
    BinadeInRange(x, ResultQuantum(a, b));
  }

  lemma ZeroQuotient(a: F80, b: F80, x: real)
    requires a.signif == 0 && b.signif > 0 && x * Magnitude(b) == Magnitude(a)
    ensures x == 0.0 && Quotient(a.signif, OddPart(b)).0 == 0
  {
    hide OddPart, Real2;
    ZeroTimes(Real2(QuantumExp(a)));
    TimesPositive(b.signif, Real2(QuantumExp(b)));
    CancelFactor(x, 0.0, Magnitude(b));
    assert Over(0, OddPart(b)) == 0;
  }

  // ----- a quotient that f80_div rounds the wrong way -----

  const MISROUNDED_DIVIDEND := F80(0xeaaa_aaaa_aaaa_aab0, BIAS80, false)
  const MISROUNDED_DIVISOR := F80(0x8000_0000_0000_0003, BIAS80, false)

  lemma NearTieWitness(a: U64, b: U64, q: nat)
    requires T63 < b <= a && High(a) == q * b + 1 && q % 4 == 1
    ensures NearTie(a, b)
  {
    hide Pow2, BitLength, Shl;
    FloorUnique(High(a), b, Over(High(a), b), q);
    DivUnique(High(a), b, q, 1);
    if q < T64 {
      MulMonotone(q, T64 - 1, b);
    } else if q >= 2 * T64 {
      MulMonotone(2 * T64, q, b);
    }
    SixtyFiveBits(q);
    ShlIsMul(a, 63);
    Pow2Words();
    assert 2 * Shl(a, 63) == High(a);
  }

  lemma SixtyFiveBits(q: nat)
    requires T64 <= q < 2 * T64
    ensures BitLength(q) == 65
  {
    Pow2Words();
    assert Pow2(65) == 2 * Pow2(64);
    BitLengthAtLeast(q, 64);
    BitLengthAtMost(q, 65);
  }

  /** Both operands lie between one and two, so nothing overflows or underflows. */
  lemma DivMisrounds(x: real)
    requires x * Magnitude(MISROUNDED_DIVISOR) == Magnitude(MISROUNDED_DIVIDEND)
    ensures !CorrectlyRounded(x, Nearest, Div(MISROUNDED_DIVIDEND, MISROUNDED_DIVISOR, Nearest))
  {
    hide NearTie, Quotient, CorrectlyRounded, Div, Real2, RemainderFits;
    var a, b := MISROUNDED_DIVIDEND, MISROUNDED_DIVISOR;
    assert OddPart(b) == b.signif;
    NearTieWitness(a.signif, b.signif, 0x1_d555_5555_5555_5555);
    OneToTwo(x, a.signif, b.signif);
    DivNormalIff(a, b, Nearest, x);
  }

  lemma OneToTwo(x: real, a: U64, b: U64)
    requires b <= a < 2 * b && x * Times(b, Real2(-63)) == Times(a, Real2(-63)) && b > 0
    ensures LeastNormal() <= x <= GreatestFinite()
  {
    hide Real2, Pow2;
    var q := Real2(-63);
    assert (x * b as real) * q == a as real * q;
    CancelFactor(x * b as real, a as real, q);
    QuotientBetween(x, a as real, b as real);
    AroundOne();
  }

  lemma AroundOne()
    ensures LeastNormal() <= 1.0 && 2.0 <= GreatestFinite()
  {
    hide Times, Pow2;
    Pow2Words();
    TimesShift(1, 63, -63);
    TimesShift(1, 63, -62);
    BinadeOrder(MIN_QUANTUM, -63);
    BinadeOrder(-62, MAX_QUANTUM);
    TimesMonotone(T63, T64 - 1, Real2(MAX_QUANTUM));
    assert Real2(0) == 1.0 && Real2(1) == 2.0;
  }

  lemma QuotientBetween(x: real, a: real, b: real)
    requires 0.0 < b <= a <= 2.0 * b && x * b == a
    ensures 1.0 <= x <= 2.0
  {
  }

  const SHORT_DIVISOR := F80(0xc000_0000_0000_0001, 200, false)

  lemma ShortRemainder()
    ensures Quotient(1, 0xc000_0000_0000_0001).1 == 127 && !RemainderFits(1, 0xc000_0000_0000_0001)
  {
    hide Pow2;
    var b: U64 := 0xc000_0000_0000_0001;
    assert High(1) == T64;
    FloorUnique(T64, b, Over(T64, b), 1);
    DivUnique(T64, b, 1, T64 - b);
    assert BitLength(1) == 1;
    Pow2DoubleWords();
    assert (T64 - b) * Pow2(127) == 0x3fff_ffff_ffff_ffff * T127;
  }

  /** The least denormal number by one of the size of 2^-16183: the remainder is cut off, and every mode is wrong. */
  lemma DenormalDividendCutOff(mode: Mode, x: real)
    requires x * Magnitude(SHORT_DIVISOR) == Magnitude(F80(1, EXP_DENORMAL, false))
    ensures LeastNormal() <= x <= GreatestFinite()
    ensures !CorrectlyRounded(x, mode, Div(F80(1, EXP_DENORMAL, false), SHORT_DIVISOR, mode))
  {
    hide NearTie, Quotient, CorrectlyRounded, Div, Real2, RemainderFits, Times;
    var a, b := F80(1, EXP_DENORMAL, false), SHORT_DIVISOR;
    assert OddPart(b) == b.signif;
    ShortRemainder();
    QuotientBinade(a, b, x);
    assert ResultQuantum(a, b) == -326;
    BinadeOrder(MIN_QUANTUM, -326);
    BinadeOrder(-325, MAX_QUANTUM);
    TimesMonotone(T63, T64 - 1, Real2(MAX_QUANTUM));
    DivNormalIff(a, b, mode, x);
  }

  /** Zero by a number of the size of 2^-65 is not a supported number. */
  lemma ZeroBySmall(mode: Mode)
    ensures !Conforms(false, 0.0, mode, Div(F80(0, EXP_DENORMAL, false), F80(T63 + 1, BIAS80 - 65, false), mode))
  {
    hide Conforms, Real2, RemainderFits, NearTie, RoundsTwice, RoundsUpToNormal, Div;
    var a, b := F80(0, EXP_DENORMAL, false), F80(T63 + 1, BIAS80 - 65, false);
    ZeroTimes(Real2(MIN_QUANTUM));
    assert OddPart(b) == b.signif;
    assert 0.0 * Magnitude(b) == Magnitude(a);
    ZeroQuotient(a, b, 0.0);
    DivCorrectIff(a, b, mode, 0.0);
  }
}
