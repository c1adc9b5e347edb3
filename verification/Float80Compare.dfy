/** The sign of a difference, and the comparisons built on it. */
module Float80Compare {
  import opened PowersOfTwo
  import opened Float80
  import opened Float80Rounding
  import opened Float80Values
  import opened Float80Normalize
  import opened Float80Range
  import opened Float80Addition

  /** `r` is nonzero with the sign of `v`, or zero when `v` is. */
  ghost predicate SignOf(v: real, r: F80) {
    if v == 0.0 then IsZero(r) else !IsZero(r) && (r.sign <==> v < 0.0)
  }

  // ----- what u128_normalize_round returns is nonzero, signed and supported -----

  lemma NormalLead(signif: U128, exp: int, sign: bool, mode: Mode)
    requires signif > 0 && exp - Clz128(signif) >= Unbias(EXP_MIN)
    ensures var r := NormalizeRound(signif, exp, sign, mode); Supported(r) && !IsZero(r) && r.sign == sign
  {
    hide NormalizeRound, RoundToHigh, Clz128, Shl, Supported, IsZero;
    if exp - Clz128(signif) <= Unbias(EXP_MAX) {
      NormalBranch(signif, exp, sign, mode);
      PackedHigh(Shl(signif, Clz128(signif)), exp - Clz128(signif) + BIAS80, sign, mode);
    } else {
      OverflowBranch(signif, exp, sign, mode);
    }
  }

  lemma OverflowBranch(signif: U128, exp: int, sign: bool, mode: Mode)
    requires exp - Clz128(signif) > Unbias(EXP_MAX)
    ensures var r := NormalizeRound(signif, exp, sign, mode); Supported(r) && !IsZero(r) && r.sign == sign
  {
    hide Clz128, RoundToHigh, Shl, ShiftRightRound;
  }

  lemma PackedHigh(big: U128, exp: Exp15, sign: bool, mode: Mode)
    requires T127 <= big && EXP_MIN <= exp <= EXP_MAX
    ensures var r := RoundToHigh(big, exp, sign, mode); Supported(r) && !IsZero(r) && r.sign == sign
  {
    hide ShiftRightRound, Magnitude;
    UpperHalf(big, sign, mode);
    PackValue(ShiftRightRound(big, 64, sign, mode), exp, sign);
  }

  /** A sum on the finest grid comes back exact or normal. */
  lemma SumOnFinestGrid(signif: U128, exp: int, sign: bool, mode: Mode, j: nat)
    requires signif > 0 && exp >= Unbias(EXP_MIN)
    requires Times(signif, Real2(exp - 127)) == Times(j, Real2(MIN_QUANTUM))
    ensures var r := NormalizeRound(signif, exp, sign, mode); Supported(r) && !IsZero(r) && r.sign == sign
  {
    hide Times, Real2, Clz128, NormalizeRound;
    if exp - Clz128(signif) >= Unbias(EXP_MIN) {
      NormalLead(signif, exp, sign, mode);
    } else {
      DenormalExact(signif, exp, sign, mode, j);
    }
  }

  /** With at most one leading zero the result is nonzero, and supported above the least exponent. */
  lemma NearlyFull(signif: U128, exp: int, sign: bool, mode: Mode)
    requires 0x4000_0000_0000_0000_0000_0000_0000_0000 <= signif && exp >= Unbias(EXP_MIN)
    ensures var r := NormalizeRound(signif, exp, sign, mode);
            && !IsZero(r) && r.sign == sign
            && (exp > Unbias(EXP_MIN) || signif >= T127 ==> Supported(r))
  {
    hide NormalizeRound, ShiftRightRound, Pow2, BitLength;
    AtMostOneZero(signif);
    if exp - Clz128(signif) >= Unbias(EXP_MIN) {
      NormalLead(signif, exp, sign, mode);
    } else {
      DenormalBranch(signif, exp, sign, mode);
      HighQuarter(signif, sign, mode);
    }
  }

  lemma AtMostOneZero(signif: U128)
    requires 0x4000_0000_0000_0000_0000_0000_0000_0000 <= signif
    ensures Clz128(signif) <= 1 && (signif >= T127 ==> Clz128(signif) == 0)
  {
    Pow2DoubleWords();
    assert Pow2(127) == 2 * Pow2(126);
    BitLengthAtLeast(signif, 126);
    if signif >= T127 {
      BitLengthAtLeast(signif, 127);
    }
  }

  lemma HighQuarter(s: U128, sign: bool, mode: Mode)
    requires 0x4000_0000_0000_0000_0000_0000_0000_0000 <= s
    ensures ShiftRightRound(s, 64, sign, mode) > 0
  {
    hide ShiftRightRound;
    ShiftRightRounds(s, 64, sign, mode);
    RoundsToHigh(s, ShiftRightRound(s, 64, sign, mode), sign, mode);
  }

  // ----- operands that line up exactly -----

  lemma AlignedSign(a: F80, b: F80, mode: Mode)
    requires Alignable(a, b) && a.exp >= b.exp
    ensures SignOf(Value(a) + Value(b), AddOrdered(a, b, mode))
    ensures Supported(AddOrdered(a, b, mode))
  {
    hide Times, Real2, NormalizeRound, ShiftRightRound, Magnitude, AddAligned, SubtractAligned, Pow2, Supported;
    AlignedMagnitudes(a, b, mode);
    var big := ShiftRightRound(High(b.signif), a.exp - b.exp, b.sign, mode);
    if a.sign == b.sign {
      if High(a.signif) + big > 0 {
        AlignedSumSign(a, b, big, mode);
      } else {
        BothZero(a, b, big, mode);
        ZeroMagnitudes(a, b);
      }
    } else {
      AlignedDifferenceSign(a, b, big, mode);
    }
  }

  lemma ZeroMagnitudes(a: F80, b: F80)
    requires a.signif == 0 && b.signif == 0
    ensures Magnitude(a) == 0.0 && Magnitude(b) == 0.0 && Supported(F80(0, 0, a.sign))
  {
  }

  lemma AlignedSumSign(a: F80, b: F80, big: U128, mode: Mode)
    requires Alignable(a, b) && a.exp >= b.exp && big == b.signif * Pow2(64 - (a.exp - b.exp))
    requires Magnitude(a) == Times(High(a.signif), Real2(UnbiasDenormal(a.exp) - 127))
    requires Magnitude(b) == Times(big, Real2(UnbiasDenormal(a.exp) - 127))
    requires High(a.signif) + big > 0
    ensures var r := AddAligned(a, big, mode); Supported(r) && !IsZero(r) && r.sign == a.sign
    ensures Magnitude(a) + Magnitude(b) > 0.0
  {
    hide Times, Real2, NormalizeRound, AddAligned, Magnitude, Pow2, Supported;
    var signif, exp, j := AlignedSum(a, b, big, mode);
    TimesPositive(signif, Real2(exp - 127));
    SumOnFinestGrid(signif, exp, a.sign, mode, j);
  }

  lemma AlignedDifferenceSign(a: F80, b: F80, big: U128, mode: Mode)
    requires Alignable(a, b) && a.exp >= b.exp && big == b.signif * Pow2(64 - (a.exp - b.exp))
    requires Magnitude(a) == Times(High(a.signif), Real2(UnbiasDenormal(a.exp) - 127))
    requires Magnitude(b) == Times(big, Real2(UnbiasDenormal(a.exp) - 127))
    ensures Supported(SubtractAligned(a, b, big, mode))
    ensures SignOf(Signed(a.sign, Magnitude(a) - Magnitude(b)), SubtractAligned(a, b, big, mode))
  {
    hide Times, Real2, NormalizeRound, ShiftRightRound, Magnitude, Pow2;
    var m, c := High(a.signif), Real2(UnbiasDenormal(a.exp) - 127);
    assert big == 0 ==> b.signif == 0 by { MulMonotonePositive(b.signif, Pow2(64 - (a.exp - b.exp))); }
    TimesMonotone(m, big, c);
    TimesMonotone(big, m, c);
    if m != big {
      var j := OnFinestGrid(a);
      var i := OnFinestGrid(b);
      TimesMonotone(j, i, Real2(MIN_QUANTUM));
      TimesLinear(j, i, Real2(MIN_QUANTUM));
      TimesLinear(i, j, Real2(MIN_QUANTUM));
      TimesLinear(m, big, c);
      TimesLinear(big, m, c);
      var negative := m < big;
      SumOnFinestGrid(if negative then big - m else m - big, UnbiasDenormal(a.exp), negative != a.sign, mode,
                      if negative then i - j else j - i);
    }
  }

  // ----- operands too far apart, or a normal and a denormal one -----

  lemma ShiftedSmall(b: U64, gap: nat, sign: bool, mode: Mode)
    requires gap >= 1 && (b < T63 || gap >= 2)
    ensures ShiftRightRound(High(b), gap, sign, mode) <= 0x4000_0000_0000_0000_0000_0000_0000_0000
  {
    if gap >= 2 {
      assert Shr(High(b), gap) == Shr(High(b) / 2, gap - 1);
    }
    assert 2 * Shr(High(b), gap) <= High(b);
  }

  lemma FarMagnitudes(a: F80, b: F80)
    requires Finite(a) && Finite(b) && a.exp > b.exp && !Alignable(a, b)
    ensures 0.0 <= Magnitude(b) < Magnitude(a)
    ensures a.signif >= T63 && (b.signif < T63 || a.exp - b.exp >= 2)
  {
    hide Real2, Times;
    TimesMonotone(0, b.signif, Real2(QuantumExp(b)));
    assert Times(0, Real2(QuantumExp(b))) == 0.0 by { ZeroTimes(Real2(QuantumExp(b))); }
    if QuantumExp(b) < QuantumExp(a) {
      FinerBelowBinade(b.signif, QuantumExp(b), QuantumExp(a));
      TimesMonotone(T63, a.signif, Real2(QuantumExp(a)));
    } else {
      TimesMonotone(b.signif, a.signif, Real2(QuantumExp(a)));
    }
  }


  lemma FarSign(a: F80, b: F80, mode: Mode)
    requires Finite(a) && Finite(b) && a.exp > b.exp && !Alignable(a, b)
    ensures SignOf(Value(a) + Value(b), AddOrdered(a, b, mode))
    ensures a.exp > EXP_MIN || a.sign == b.sign ==> Supported(AddOrdered(a, b, mode))
  {
    hide NormalizeRound, ShiftRightRound, Magnitude;
    var big := ShiftRightRound(High(b.signif), a.exp - b.exp, b.sign, mode);
    FarMagnitudes(a, b);
    ShiftedSmall(b.signif, a.exp - b.exp, b.sign, mode);
    if a.sign == b.sign {
      var sum, exp := High(a.signif) + big, UnbiasDenormal(a.exp);
      if sum >= T128 {
        NearlyFull(WithTopBit(ShiftRightRound(sum - T128, 1, false, mode)), exp + 1, a.sign, mode);
      } else {
        NearlyFull(sum, exp, a.sign, mode);
      }
    } else {
      var taken := if mode == Chop && big == 0 && b.signif != 0 then 1 else big;
      NearlyFull(High(a.signif) - taken, UnbiasDenormal(a.exp), a.sign, mode);
    }
  }

  /** The sign of f80_add's result is the sign of the exact sum, for every two finite operands. */
  lemma AddSign(x: F80, y: F80, mode: Mode)
    requires Finite(x) && Finite(y)
    ensures SignOf(Value(x) + Value(y), Add(x, y, mode))
  {
    hide AddOrdered, Value;
    var a, b := if x.exp < y.exp then y else x, if x.exp < y.exp then x else y;
    if Alignable(a, b) {
      AlignedSign(a, b, mode);
    } else {
      FarSign(a, b, mode);
    }
  }

  // ----- the assertion at the end of f80_add -----

  /** A number with the least exponent less a denormal one, half a unit below the least normal, rounded up. */
  predicate TripsAssertion(n: F80, d: F80, mode: Mode) {
    && n.exp == EXP_MIN && d.exp == EXP_DENORMAL && n.sign != d.sign
    && d.signif == 2 * (n.signif - T63) + 1
    && (mode == Nearest || RoundsAway(n.sign, mode))
  }

  lemma LeastExponentSupportedIff(a: F80, b: F80, mode: Mode)
    requires Finite(a) && Finite(b) && a.exp == EXP_MIN && b.exp == EXP_DENORMAL && a.sign != b.sign
    ensures Supported(AddOrdered(a, b, mode)) <==> !TripsAssertion(a, b, mode)
  {
    hide NormalizeRound, ShiftRightRound, Pow2, RoundToHigh;
    var big := ShiftRightRound(High(b.signif), 1, b.sign, mode);
    AlignmentExact(b.signif, 1, b.sign, mode);
    Pow2Words();
    assert big == b.signif * 0x8000_0000_0000_0000;
    var s := High(a.signif) - big;
    assert AddOrdered(a, b, mode) == NormalizeRound(s, Unbias(EXP_MIN), a.sign, mode);
    if s >= T127 {
      NearlyFull(s, Unbias(EXP_MIN), a.sign, mode);
    } else {
      AtMostOneZero(s);
      LeadBelow(s);
      DenormalBranch(s, Unbias(EXP_MIN), a.sign, mode);
      DenormalRoundsUpIff(s, 2 * a.signif - b.signif, a.sign, mode);
    }
  }

  /** Below the least normal, a multiple of half a unit rounds up into it only from the last half unit. */
  lemma DenormalRoundsUpIff(s: U128, halves: nat, sign: bool, mode: Mode)
    requires s == halves * 0x8000_0000_0000_0000 && s < T127
    ensures Supported(RoundToHigh(s, EXP_DENORMAL, sign, mode)) <==>
            !(halves == T64 - 1 && (mode == Nearest || RoundsAway(sign, mode)))
  {
    hide ShiftRightRound;
    var k := ShiftRightRound(s, 64, sign, mode);
    ShiftRightRounds(s, 64, sign, mode);
    RoundsToHigh(s, k, sign, mode);
    HalfUnitRounding(halves, k, sign, mode);
  }

  lemma HalfUnitRounding(halves: nat, k: nat, sign: bool, mode: Mode)
    requires halves < T64
    requires RoundsToMultiple(halves * 0x8000_0000_0000_0000, T64, High(k), k % 2 == 0, sign, mode)
    ensures k <= T63
    ensures k == T63 <==> halves == T64 - 1 && (mode == Nearest || RoundsAway(sign, mode))
  {
    assert halves - 1 <= 2 * k <= halves + 1;
  }

  /** f80_add ends in a supported number, as it asserts, on all finite operands but exactly those. */
  lemma AddSupportedIff(x: F80, y: F80, mode: Mode)
    requires Finite(x) && Finite(y)
    ensures Supported(Add(x, y, mode)) <==> !TripsAssertion(x, y, mode) && !TripsAssertion(y, x, mode)
  {
    hide AddOrdered;
    var a, b := if x.exp < y.exp then y else x, if x.exp < y.exp then x else y;
    if Alignable(a, b) {
      AlignedSign(a, b, mode);
    } else if a.exp == EXP_MIN && a.sign != b.sign {
      LeastExponentSupportedIff(a, b, mode);
    } else {
      FarSign(a, b, mode);
    }
  }

  /** The least normal number less the least denormal one, to nearest. */
  lemma AddTripsAssertion()
    ensures !Supported(Add(F80(T63, EXP_MIN, false), F80(1, EXP_DENORMAL, true), Nearest))
  {
    hide Add;
    AddSupportedIff(F80(T63, EXP_MIN, false), F80(1, EXP_DENORMAL, true), Nearest);
  }

  // ----- comparisons -----

  predicate Comparable(f: F80) {
    Supported(f) && !IsNan(f)
  }

  lemma InfinityBeyondFinite(f: F80, inf: F80)
    requires Finite(f) && Comparable(inf) && IsInf(inf)
    ensures Magnitude(f) < Magnitude(inf)
  {
    hide Real2, Times;
    FinerBelowBinade(f.signif, QuantumExp(f), QuantumExp(inf));
  }

  lemma InfinityPacks(exp: int, sign: bool, mode: Mode)
    requires exp == Unbias(EXP_SPECIAL)
    ensures NormalizeRound(T127, exp, sign, mode) == F80_INF.(sign := sign)
  {
    AtMostOneZero(T127);
  }

  lemma AddInfinite(a: F80, b: F80, mode: Mode)
    requires Comparable(a) && Comparable(b) && IsInf(a) && (IsInf(b) ==> a.sign == b.sign)
    ensures AddOrdered(a, b, mode) == F80_INF.(sign := a.sign)
  {
    hide NormalizeRound, ShiftRightRound;
    assert High(a.signif) == T127;
    InfinityPacks(UnbiasDenormal(a.exp), a.sign, mode);
  }

  /**
   f80_lt decides the order of every two comparable operands, infinities included, in every mode.
   On the operands of `TripsAssertion` the assertion in f80_add stops the program before it
   answers; what is stated there is what f80_lt computes without assertions.
   */
  lemma LtDecidesOrder(a: F80, b: F80, mode: Mode)
    requires Comparable(a) && Comparable(b)
    ensures Lt(a, b, mode) <==> Value(a) < Value(b)
  {
    hide AddOrdered, Magnitude;
    NegValue(b);
    if Finite(a) && Finite(b) {
      AddSign(a, Neg(b), mode);
      ZeroValues(a, b);
    } else if IsInf(a) && IsInf(b) {
      SameInfinity(a, b);
      if a.sign != b.sign {
        AddInfinite(a, Neg(b), mode);
        PositiveInfinity(a);
      }
    } else if IsInf(a) {
      AddInfinite(a, Neg(b), mode);
      InfinityBeyondFinite(b, a);
      NonnegativeMagnitude(b);
    } else {
      AddInfinite(Neg(b), a, mode);
      InfinityBeyondFinite(a, b);
      NonnegativeMagnitude(a);
    }
  }

  lemma ZeroValues(a: F80, b: F80)
    ensures IsZero(a) && IsZero(b) ==> Value(a) == Value(b) == 0.0
  {
  }

  lemma SameInfinity(a: F80, b: F80)
    requires Comparable(a) && Comparable(b) && IsInf(a) && IsInf(b)
    ensures a.signif == b.signif == T63 && Magnitude(a) == Magnitude(b)
  {
  }

  lemma PositiveInfinity(a: F80)
    requires IsInf(a) && Comparable(a)
    ensures Magnitude(a) > 0.0
  {
    TimesPositive(a.signif, Real2(QuantumExp(a)));
  }

  lemma NonnegativeMagnitude(f: F80)
    ensures Magnitude(f) >= 0.0
  {
    if f.signif > 0 {
      TimesPositive(f.signif, Real2(QuantumExp(f)));
    }
  }

  lemma EqualMagnitudes(a: F80, b: F80)
    requires Comparable(a) && Comparable(b) && Magnitude(a) == Magnitude(b)
    ensures a.signif == b.signif && a.exp == b.exp
  {
    hide Real2, Times;
    if QuantumExp(a) > QuantumExp(b) {
      FinerBelowBinade(b.signif, QuantumExp(b), QuantumExp(a));
      TimesMonotone(T63, a.signif, Real2(QuantumExp(a)));
    } else if QuantumExp(b) > QuantumExp(a) {
      FinerBelowBinade(a.signif, QuantumExp(a), QuantumExp(b));
      TimesMonotone(T63, b.signif, Real2(QuantumExp(b)));
    } else {
      TimesMonotone(a.signif, b.signif, Real2(QuantumExp(a)));
      TimesMonotone(b.signif, a.signif, Real2(QuantumExp(a)));
    }
  }

  /** f80_eq decides equality of values; the two zeroes are one value. */
  lemma EqDecidesEquality(a: F80, b: F80)
    requires Comparable(a) && Comparable(b)
    ensures Eq(a, b) <==> Value(a) == Value(b)
  {
    hide Magnitude;
    ZeroValues(a, b);
    NonnegativeMagnitude(a);
    NonnegativeMagnitude(b);
    ZeroMagnitudeIff(a);
    ZeroMagnitudeIff(b);
    if Magnitude(a) == Magnitude(b) {
      EqualMagnitudes(a, b);
    }
  }

  lemma ZeroMagnitudeIff(f: F80)
    requires Comparable(f)
    ensures Magnitude(f) == 0.0 <==> IsZero(f)
  {
    if f.signif > 0 {
      TimesPositive(f.signif, Real2(QuantumExp(f)));
    }
  }
}
