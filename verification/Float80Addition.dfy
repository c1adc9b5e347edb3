/** f80_add on operands that line up without loss. */
module Float80Addition {
  import opened PowersOfTwo
  import opened Float80
  import opened Float80Rounding
  import opened Float80Values
  import opened Float80Normalize
  import opened Float80Range

  // ----- shifts that lose nothing -----

  lemma RoundsExactly(n: nat, d: nat, j: nat, k: nat, sign: bool, mode: Mode)
    requires d > 0 && n == j * d && RoundsTo(n, d, sign, mode, k)
    ensures k == j
  {
    assert n - k * d == (j - k) * d;
    MultipleBound(j - k, d);
  }

  /** A significand in the upper half can move down by up to 64 places without loss. */
  lemma AlignmentExact(b: U64, gap: nat, sign: bool, mode: Mode)
    requires gap <= 64
    ensures ShiftRightRound(High(b), gap, sign, mode) == b * Pow2(64 - gap)
  {
    hide ShiftRightRound, Pow2, RoundsTo;
    ShiftRightRounds(High(b), gap, sign, mode);
    Pow2Words();
    Pow2Add(64 - gap, gap);
    MulAssoc(b, Pow2(64 - gap), Pow2(gap));
    assert High(b) == b * Pow2(64);
    RoundsExactly(High(b), Pow2(gap), b * Pow2(64 - gap), ShiftRightRound(High(b), gap, sign, mode), sign, mode);
  }

  lemma MulAssoc(x: nat, y: nat, z: nat)
    ensures x * (y * z) == (x * y) * z
  {
  }

  lemma HalvingExact(low: U128, sign: bool, mode: Mode)
    requires low % 2 == 0
    ensures ShiftRightRound(low, 1, sign, mode) == low / 2
  {
    assert LowBits(low, 0) == 0 && Shr(low, 0) == low && Shr(low, 1) == low / 2;
  }

  // ----- results below the normal range are exact -----

  lemma DenormalExact(signif: U128, exp: int, sign: bool, mode: Mode, j: nat)
    requires signif > 0 && exp >= Unbias(EXP_MIN) && exp - Clz128(signif) < Unbias(EXP_MIN)
    requires Times(signif, Real2(exp - 127)) == Times(j, Real2(MIN_QUANTUM))
    ensures 0 < j < T63
    ensures NormalizeRound(signif, exp, sign, mode) == F80(j, EXP_DENORMAL, sign)
  {
    hide Times, Real2, Clz128, NormalizeRound, RoundToHigh;
    var n := exp - Unbias(EXP_MIN);
    var s := Shl(signif, n);
    DenormalBranch(signif, exp, sign, mode);
    ShlIsMul(signif, n);
    TimesShift(signif, n, MIN_QUANTUM - 64);
    Pow2Words();
    TimesShift(j, 64, MIN_QUANTUM - 64);
    assert j * Pow2(64) == High(j);
    TimesMonotone(s, High(j), Real2(MIN_QUANTUM - 64));
    TimesMonotone(High(j), s, Real2(MIN_QUANTUM - 64));
    assert s == High(j);
    RoundHighExact(j, sign, mode);
  }

  lemma RoundHighExact(j: nat, sign: bool, mode: Mode)
    requires j < T63
    ensures RoundToHigh(High(j), EXP_DENORMAL, sign, mode) == F80(j, EXP_DENORMAL, sign)
  {
    hide ShiftRightRound;
    AlignmentExact(j, 64, sign, mode);
  }

  /** The first power of two that is no float. */
  ghost function FirstInfinite(): real {
    Times(T64, Real2(MAX_QUANTUM))
  }

  /** A magnitude on the finest grid never rounds up to the least normal number. */
  lemma WholeUnits(j: nat, sign: bool, mode: Mode)
    ensures !RoundsUpToNormal(Times(j, Real2(MIN_QUANTUM)), sign, mode)
  {
    hide Times, Real2;
    var q := Real2(MIN_QUANTUM);
    OnePlace(T63 - 1, q);
    TimesMonotone(j, T63 - 1, q);
    TimesMonotone(T63, j, q);
  }

  lemma TopSignificand(signif: U128, exp: int)
    requires signif > 0 && exp <= Unbias(EXP_MAX) + 1
    ensures exp - Clz128(signif) > Unbias(EXP_MAX) && signif == T127 <==>
            Times(signif, Real2(exp - 127)) == FirstInfinite()
  {
    hide Times, Real2, Clz128;
    var x := Times(signif, Real2(exp - 127));
    NormalRange(signif, exp);
    CarryKeepsValue(MAX_QUANTUM);
    if exp - Clz128(signif) <= Unbias(EXP_MAX) {
      BinadeOrder(exp - Clz128(signif) - 62, MAX_QUANTUM + 1);
    } else {
      Pow2Words();
      TimesShift(T63, 64, exp - 127);
      assert T63 * Pow2(64) == T127;
      TimesMonotone(T127, signif, Real2(exp - 127));
      TimesMonotone(signif, T127, Real2(exp - 127));
    }
  }

  /**
   A sum of floats, held exactly in 128 bits, conforms whether it is normal, below the normal range
   or above it, except for an exact 2^16384 that is to be brought nearer to zero.
   */
  lemma RoundSumIff(signif: U128, exp: int, sign: bool, mode: Mode, x: real, j: nat)
    requires signif > 0 && Unbias(EXP_MIN) <= exp <= Unbias(EXP_MAX) + 1
    requires x == Times(signif, Real2(exp - 127)) == Times(j, Real2(MIN_QUANTUM))
    ensures NormalizeRound(signif, exp, sign, mode).sign == sign
    ensures Conforms(sign, x, mode, NormalizeRound(signif, exp, sign, mode)) <==>
            !(x == FirstInfinite() && TowardZero(sign, mode))
  {
    hide Times, Real2, Clz128, NormalizeRound, Conforms, RoundsUpToNormal, FirstInfinite, RoundsTwice;
    NormalizeRoundSign(signif, exp, sign, mode);
    NormalizeRoundIff(signif, exp, sign, mode);
    WholeUnits(j, sign, mode);
    TopSignificand(signif, exp);
  }

  // ----- aligned operands -----

  /** The exponents differ by at most 64 and both operands are read with the same bias. */
  predicate Alignable(x: F80, y: F80) {
    && Finite(x) && Finite(y)
    && (x.exp == EXP_DENORMAL <==> y.exp == EXP_DENORMAL)
    && -64 <= x.exp - y.exp <= 64
  }

  /** Both magnitudes as multiples of the lowest bit of the 128-bit sum. */
  lemma AlignedMagnitudes(a: F80, b: F80, mode: Mode)
    requires Alignable(a, b) && a.exp >= b.exp
    ensures var c, big := Real2(UnbiasDenormal(a.exp) - 127), ShiftRightRound(High(b.signif), a.exp - b.exp, b.sign,
        mode);
            && big == b.signif * Pow2(64 - (a.exp - b.exp))
            && Magnitude(a) == Times(High(a.signif), c)
            && Magnitude(b) == Times(big, c)
  {
    hide Times, Real2, ShiftRightRound;
    var gap, e := a.exp - b.exp, UnbiasDenormal(a.exp) - 127;
    AlignmentExact(b.signif, gap, b.sign, mode);
    Pow2Words();
    TimesShift(a.signif, 64, e);
    TimesShift(b.signif, 64 - gap, e);
    assert High(a.signif) == a.signif * Pow2(64);
  }

  /** An overflowing 128-bit sum is even, so halving it is exact. */
  lemma OverflowIsEven(a: U64, b: U64, gap: nat)
    requires gap <= 64 && High(a) + b * Pow2(64 - gap) >= T128
    ensures (High(a) + b * Pow2(64 - gap) - T128) % 2 == 0
    ensures High(a) + b * Pow2(64 - gap) < 2 * T128
  {
    Pow2Words();
    Pow2Monotone(64 - gap, 64);
    MulLe(b, Pow2(64 - gap), T64 - 1, T64);
    if gap < 64 {
      TwiceTimes(b, Pow2(63 - gap));
    }
  }

  lemma OnFinestGrid(f: F80) returns (j: nat)
    ensures Magnitude(f) == Times(j, Real2(MIN_QUANTUM))
  {
    j := CoarserOnGrid(f.signif, QuantumExp(f), MIN_QUANTUM);
  }

  /** The exact sum of two magnitudes in the form handed to u128_normalize_round, carry or no carry. */
  lemma AlignedSum(a: F80, b: F80, big: U128, mode: Mode) returns (signif: U128, exp: int, j: nat)
    requires Alignable(a, b) && a.exp >= b.exp && big == b.signif * Pow2(64 - (a.exp - b.exp))
    requires Magnitude(a) == Times(High(a.signif), Real2(UnbiasDenormal(a.exp) - 127))
    requires Magnitude(b) == Times(big, Real2(UnbiasDenormal(a.exp) - 127))
    requires High(a.signif) + big > 0
    ensures signif > 0 && Unbias(EXP_MIN) <= exp <= Unbias(EXP_MAX) + 1
    ensures AddAligned(a, big, mode) == NormalizeRound(signif, exp, a.sign, mode)
    ensures Magnitude(a) + Magnitude(b) == Times(signif, Real2(exp - 127)) == Times(j, Real2(MIN_QUANTUM))
  {
    hide Times, Real2, NormalizeRound, ShiftRightRound, Magnitude, Pow2;
    var sum := High(a.signif) + big;
    exp := UnbiasDenormal(a.exp);
    var j1 := OnFinestGrid(a);
    var j2 := OnFinestGrid(b);
    j := j1 + j2;
    TimesLinear(j1, j2, Real2(MIN_QUANTUM));
    TimesLinear(High(a.signif), big, Real2(exp - 127));
    if sum >= T128 {
      CarriedSum(a, b, big, mode);
      Real2Succ(exp - 127);
      signif := sum / 2;
      TimesTwice(signif, Real2(exp - 127));
      exp := exp + 1;
    } else {
      signif := sum;
    }
  }

  lemma CarriedSum(a: F80, b: F80, big: U128, mode: Mode)
    requires Alignable(a, b) && a.exp >= b.exp && big == b.signif * Pow2(64 - (a.exp - b.exp))
    requires High(a.signif) + big >= T128
    ensures var sum := High(a.signif) + big;
            && sum % 2 == 0 && sum / 2 < T128
            && AddAligned(a, big, mode) == NormalizeRound(sum / 2, UnbiasDenormal(a.exp) + 1, a.sign, mode)
  {
    hide AddAligned, Pow2;
    OverflowIsEven(a.signif, b.signif, a.exp - b.exp);
    HalvedSum(a, big, mode);
  }

  /** A carry out of 128 bits is put back by halving, which is exact on an even sum. */
  lemma HalvedSum(a: F80, big: U128, mode: Mode)
    requires Finite(a) && High(a.signif) + big >= T128 && (High(a.signif) + big - T128) % 2 == 0
    ensures var sum := High(a.signif) + big;
            && sum % 2 == 0 && sum / 2 < T128
            && AddAligned(a, big, mode) == NormalizeRound(sum / 2, UnbiasDenormal(a.exp) + 1, a.sign, mode)
  {
    hide NormalizeRound, ShiftRightRound;
    HalvingExact(High(a.signif) + big - T128, false, mode);
  }

  /** An exact sum that is the first power of two beyond the floats, to be brought nearer to zero. */
  ghost predicate ReachesInfinity(v: real, mode: Mode) {
    (v == FirstInfinite() && TowardZero(false, mode)) || (v == -FirstInfinite() && TowardZero(true, mode))
  }

  lemma ReachesInfinitySigned(sign: bool, x: real, mode: Mode)
    requires x >= 0.0
    ensures ReachesInfinity(Signed(sign, x), mode) <==> x == FirstInfinite() && TowardZero(sign, mode)
  {
    TimesPositive(T64, Real2(MAX_QUANTUM));
  }

  /** Adding magnitudes, with or without a carry out of 128 bits. */
  lemma AddAlignedIff(a: F80, b: F80, big: U128, mode: Mode)
    requires Alignable(a, b) && a.exp >= b.exp && big == b.signif * Pow2(64 - (a.exp - b.exp))
    requires Magnitude(a) == Times(High(a.signif), Real2(UnbiasDenormal(a.exp) - 127))
    requires Magnitude(b) == Times(big, Real2(UnbiasDenormal(a.exp) - 127))
    requires High(a.signif) + big > 0
    ensures AddAligned(a, big, mode).sign == a.sign
    ensures ConformsTo(Signed(a.sign, Magnitude(a) + Magnitude(b)), mode, AddAligned(a, big, mode)) <==>
            !ReachesInfinity(Signed(a.sign, Magnitude(a) + Magnitude(b)), mode)
  {
    hide Times, Real2, NormalizeRound, Conforms, ConformsTo, ReachesInfinity, AddAligned, Magnitude, Pow2;
    var signif, exp, j := AlignedSum(a, b, big, mode);
    var x := Magnitude(a) + Magnitude(b);
    TimesPositive(signif, Real2(exp - 127));
    RoundSumIff(signif, exp, a.sign, mode, x, j);
    ConformsSigned(a.sign, x, mode, AddAligned(a, big, mode));
    ReachesInfinitySigned(a.sign, x, mode);
  }

  /** Subtracting magnitudes; cancellation to zero gives the zero the rounding mode asks for. */
  lemma SubtractAlignedCorrect(a: F80, b: F80, big: U128, mode: Mode)
    requires Alignable(a, b) && a.exp >= b.exp && big == b.signif * Pow2(64 - (a.exp - b.exp))
    requires Magnitude(a) == Times(High(a.signif), Real2(UnbiasDenormal(a.exp) - 127))
    requires Magnitude(b) == Times(big, Real2(UnbiasDenormal(a.exp) - 127))
    ensures ConformsTo(Signed(a.sign, Magnitude(a) - Magnitude(b)), mode, SubtractAligned(a, b, big, mode))
    ensures !ReachesInfinity(Signed(a.sign, Magnitude(a) - Magnitude(b)), mode)
    ensures Magnitude(a) == Magnitude(b) ==>
            SubtractAligned(a, b, big, mode) == F80(0, 0, a.signif != 0 && mode == Down)
  {
    hide Times, Real2, NormalizeRound, Conforms, ConformsTo, ReachesInfinity, ShiftRightRound, Magnitude, Pow2,
      FirstInfinite;
    var m, c, exp := High(a.signif), Real2(UnbiasDenormal(a.exp) - 127), UnbiasDenormal(a.exp);
    assert big == 0 ==> b.signif == 0 by { MulMonotonePositive(b.signif, Pow2(64 - (a.exp - b.exp))); }
    TimesMonotone(m, big, c);
    TimesMonotone(big, m, c);
    if m == big {
      ZeroConforms(mode, SubtractAligned(a, b, big, mode));
    } else {
      var negative := m < big;
      var signif := if negative then big - m else m - big;
      var x := if negative then Magnitude(b) - Magnitude(a) else Magnitude(a) - Magnitude(b);
      var j := DifferenceOnGrid(a, b, m, big, c);
      TimesPositive(signif, c);
      RoundSumIff(signif, exp, negative != a.sign, mode, x, j);
      TopSignificand(signif, exp);
      ConformsSigned(negative != a.sign, x, mode, SubtractAligned(a, b, big, mode));
      ReachesInfinitySigned(negative != a.sign, x, mode);
    }
  }

  lemma DifferenceOnGrid(a: F80, b: F80, m: nat, big: nat, c: real) returns (j: nat)
    requires Magnitude(a) == Times(m, c) && Magnitude(b) == Times(big, c) && c > 0.0
    ensures if m < big then Magnitude(b) - Magnitude(a) == Times(big - m, c) == Times(j, Real2(MIN_QUANTUM))
            else Magnitude(a) - Magnitude(b) == Times(m - big, c) == Times(j, Real2(MIN_QUANTUM))
  {
    hide Times, Real2, Magnitude;
    var k := OnFinestGrid(a);
    var i := OnFinestGrid(b);
    TimesMonotone(m, big, c);
    TimesMonotone(k, i, Real2(MIN_QUANTUM));
    TimesLinear(k, i, Real2(MIN_QUANTUM));
    TimesLinear(i, k, Real2(MIN_QUANTUM));
    TimesLinear(m, big, c);
    TimesLinear(big, m, c);
    j := if m < big then i - k else k - i;
  }

  lemma MulMonotonePositive(x: nat, p: nat)
    requires p > 0
    ensures x * p == 0 ==> x == 0
  {
  }

  lemma ZeroConforms(mode: Mode, r: F80)
    requires IsZero(r)
    ensures ConformsTo(0.0, mode, r) && !ReachesInfinity(0.0, mode)
  {
    hide CorrectlyRounded;
    PositiveRange();
    TimesPositive(T64, Real2(MAX_QUANTUM));
    assert Value(r) == 0.0 by { ZeroTimes(Real2(QuantumExp(r))); }
    ExactIsCorrect(0.0, mode, r);
  }

  lemma ZeroSum(exp: int, sign: bool, mode: Mode)
    requires exp == Unbias(EXP_MIN)
    ensures NormalizeRound(0, exp, sign, mode) == F80(0, 0, sign)
  {
    hide NormalizeRound;
    ZeroNormalized(exp, sign, mode);
  }

  /** Operands that line up are summed as the standard asks, but for that. */
  lemma AlignedIff(a: F80, b: F80, mode: Mode)
    requires Alignable(a, b) && a.exp >= b.exp
    ensures ConformsTo(Value(a) + Value(b), mode, AddOrdered(a, b, mode)) <==>
            !ReachesInfinity(Value(a) + Value(b), mode)
    ensures a.sign == b.sign ==> AddOrdered(a, b, mode).sign == a.sign
    ensures Value(a) + Value(b) == 0.0 && a.sign != b.sign ==>
            AddOrdered(a, b, mode) == F80(0, 0, a.signif != 0 && mode == Down)
  {
    hide Times, Real2, NormalizeRound, ConformsTo, ReachesInfinity, ShiftRightRound, Magnitude, AddAligned,
        SubtractAligned;
    AlignedMagnitudes(a, b, mode);
    var big := ShiftRightRound(High(b.signif), a.exp - b.exp, b.sign, mode);
    if a.sign == b.sign {
      if High(a.signif) + big > 0 {
        AddAlignedIff(a, b, big, mode);
      } else {
        BothZero(a, b, big, mode);
      }
    } else {
      SubtractAlignedCorrect(a, b, big, mode);
    }
  }

  lemma BothZero(a: F80, b: F80, big: U128, mode: Mode)
    requires Alignable(a, b) && High(a.signif) + big == 0 && a.sign == b.sign
    requires Magnitude(a) == Times(High(a.signif), Real2(UnbiasDenormal(a.exp) - 127))
    requires Magnitude(b) == Times(big, Real2(UnbiasDenormal(a.exp) - 127))
    ensures AddAligned(a, big, mode) == F80(0, 0, a.sign)
    ensures ConformsTo(Value(a) + Value(b), mode, AddAligned(a, big, mode))
    ensures !ReachesInfinity(Value(a) + Value(b), mode)
  {
    hide NormalizeRound, ConformsTo, ReachesInfinity;
    ZeroSum(UnbiasDenormal(a.exp), a.sign, mode);
    ZeroConforms(mode, F80(0, 0, a.sign));
  }
}
