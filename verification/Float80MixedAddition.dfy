/** f80_add on a normal operand and a denormal one at most 64 places down. */
module Float80MixedAddition {
  import opened PowersOfTwo
  import opened Float80
  import opened Float80Rounding
  import opened Float80Values
  import opened Float80Normalize
  import opened Float80Range
  import opened Float80Addition
  import opened Float80Compare
  import opened Float80FarAddition

  // ----- the code adds half of the denormal operand -----

  ghost predicate Mixed(a: F80, b: F80) {
    Normal(a) && a.exp <= 64 && Finite(b) && b.exp == EXP_DENORMAL && b.signif > 0
  }

  /** Half of the denormal operand, in parts of 2^-64 of the last place of the normal one. */
  function HalfParts(a: F80, b: F80): nat
    requires a.exp <= 64
  {
    b.signif * Pow2(64 - a.exp)
  }

  /** The shift takes the exponent of a denormal number for 0, where its unit is that of exponent 1. */
  lemma HalfMagnitude(a: F80, b: F80, mode: Mode)
    requires Mixed(a, b)
    ensures var big := HalfParts(a, b);
            && Aligned(a, b, mode) == big && 0 < big < T127 && (a.exp >= 2 ==> 4 * big < T127)
            && Magnitude(a) == Times(High(a.signif), Real2(QuantumExp(a) - 64))
            && Magnitude(b) == Times(2 * big, Real2(QuantumExp(a) - 64))
  {
    hide ShiftRightRound, Times, Real2, Pow2;
    var e, p := QuantumExp(a) - 64, Pow2(64 - a.exp);
    AlignmentExact(b.signif, a.exp, b.sign, mode);
    Pow2Words();
    TimesShift(a.signif, 64, e);
    TimesShift(b.signif, 64 - a.exp, e);
    assert High(a.signif) == a.signif * Pow2(64);
    Real2Succ(MIN_QUANTUM - 1);
    TimesTwice(b.signif * p, Real2(e));
    TimesTwice(b.signif, Real2(MIN_QUANTUM - 1));
    HalfPartsBounds(b.signif, a.exp);
  }

  lemma HalfPartsBounds(b: nat, exp: nat)
    requires 0 < b < T63 && 1 <= exp <= 64
    ensures 0 < b * Pow2(64 - exp) < T127
    ensures exp >= 2 ==> 4 * (b * Pow2(64 - exp)) < T127
  {
    hide Pow2;
    var p := Pow2(64 - exp);
    Pow2Words();
    HalfOfPow2(63);
    Pow2Monotone(64 - exp, 63);
    MulLe(b, p, T63 - 1, T63);
    MulLe(1, 1, b, p);
    if exp >= 2 {
      Pow2Monotone(64 - exp, 62);
      MulLe(b, p, T63 - 1, 0x4000_0000_0000_0000);
    }
  }

  // ----- when the rest of it does not matter -----

  /** To nearest, `b` of `d` parts round with `m` as half as many do, away from the ends of a binade. */
  predicate NearestAbsorbs(m: nat, b: nat, d: nat) {
    || 2 * b < d || (2 * b == d && m % 2 == 0)
    || (b == d && m % 2 == 1) || (d < b && 2 * b < 3 * d) || (2 * b == 3 * d && m % 2 == 1)
  }

  /**
   Rounding hides that only half of `b` was added to the significand `m`, where a unit of `m` is
   worth `d` units of `b`: the two operands have the same sign, or not; the mode rounds away from
   zero, or not; and `least` says that the exponent is the least normal one.
   */
  predicate Absorbs(m: nat, b: nat, d: nat, same: bool, away: bool, least: bool, mode: Mode) {
    if same then
      if mode == Nearest then
        NearestAbsorbs(m, b, d) || (m == T64 - 1 && d <= b <= 2 * d) || (m == T64 - 2 && b == 3 * d)
      else if away then b <= d || (m == T64 - 1 && 2 * d < b <= 3 * d)
      else b < d || (m == T64 - 1 && 2 * d <= b < 3 * d)
    else if m == T63 then
      if mode == Nearest then 4 * b <= d || (d < 2 * b && 4 * b < 3 * d)
      else if away then 2 * b < d
      else 2 * b <= d || (least && b == d)
    else if mode == Nearest then
      if m == T63 + 1 then 2 * b < d || (d <= b && 4 * b <= 5 * d) else NearestAbsorbs(m, b, d)
    else if away then b < d
    else b <= d
  }

  // How many places the code moves the digit decides how large the denormal operand is.

  lemma SumInBinadeNearest(m: U64, big: nat, k: nat, sign: bool)
    requires m >= T63 && 0 < big && High(m) + 2 * big < T128
    requires RoundsToMultiple(High(m) + big, T64, High(k), k % 2 == 0, sign, Nearest)
    ensures RoundsToMultiple(High(m) + 2 * big, T64, High(k), k % 2 == 0, sign, Nearest) <==>
            Absorbs(m, big, T63, true, RoundsAway(sign, Nearest), false, Nearest)
  {
    var u: int := k - m;
    assert u >= 0;
    if u == 0 {
      assert big <= T63;
    } else if u == 1 {
      assert T63 <= big <= 3 * T63;
    } else {
      assert big >= 3 * T63;
    }
  }

  lemma SumInBinadeWhole(m: U64, big: nat, k: nat, sign: bool, mode: Mode)
    requires TowardZero(sign, mode)
    requires m >= T63 && 0 < big && High(m) + 2 * big < T128
    requires RoundsToMultiple(High(m) + big, T64, High(k), k % 2 == 0, sign, mode)
    ensures RoundsToMultiple(High(m) + 2 * big, T64, High(k), k % 2 == 0, sign, mode) <==>
            Absorbs(m, big, T63, true, RoundsAway(sign, mode), false, mode)
  {
    var u: int := k - m;
    assert u >= 0;
    if u == 0 {
      assert big < T64;
    } else {
      assert big >= T64;
    }
  }

  lemma SumInBinadeNext(m: U64, big: nat, k: nat, sign: bool, mode: Mode)
    requires RoundsAway(sign, mode)
    requires m >= T63 && 0 < big && High(m) + 2 * big < T128
    requires RoundsToMultiple(High(m) + big, T64, High(k), k % 2 == 0, sign, mode)
    ensures RoundsToMultiple(High(m) + 2 * big, T64, High(k), k % 2 == 0, sign, mode) <==>
            Absorbs(m, big, T63, true, RoundsAway(sign, mode), false, mode)
  {
    var u: int := k - m;
    assert u >= 1;
    if u == 1 {
      assert big <= T64;
    } else {
      assert big > T64;
    }
  }

  lemma SumInBinade(m: U64, big: nat, k: nat, sign: bool, mode: Mode)
    requires m >= T63 && 0 < big && High(m) + 2 * big < T128
    requires RoundsToMultiple(High(m) + big, T64, High(k), k % 2 == 0, sign, mode)
    ensures RoundsToMultiple(High(m) + 2 * big, T64, High(k), k % 2 == 0, sign, mode) <==>
            Absorbs(m, big, T63, true, RoundsAway(sign, mode), false, mode)
  {
    hide RoundsToMultiple, Absorbs;
    if mode == Nearest {
      SumInBinadeNearest(m, big, k, sign);
    } else if RoundsAway(sign, mode) {
      SumInBinadeNext(m, big, k, sign, mode);
    } else {
      SumInBinadeWhole(m, big, k, sign, mode);
    }
  }

  lemma SumCrosses(m: U64, big: nat, k: nat, sign: bool, mode: Mode)
    requires m >= T63 && High(m) + big < T128 <= High(m) + 2 * big
    requires RoundsToMultiple(High(m) + big, T64, High(k), k % 2 == 0, sign, mode)
    ensures k == T64 && RoundsToMultiple(m * 0x8000_0000_0000_0000 + big, T64, T127, true, sign, mode) <==>
            Absorbs(m, big, T63, true, RoundsAway(sign, mode), false, mode)
  {
  }

  /** `half` is half of the sum that the code rounds. */
  lemma SumCarries(m: U64, big: nat, half: nat, k: nat, sign: bool, mode: Mode)
    requires m >= T63 && 2 * half == High(m) + big >= T128
    requires RoundsToMultiple(half, T64, High(k), k % 2 == 0, sign, mode)
    ensures RoundsToMultiple(m * 0x8000_0000_0000_0000 + big, T64, High(k), k % 2 == 0, sign, mode) <==>
            Absorbs(m, big, T63, true, RoundsAway(sign, mode), false, mode)
  {
    if mode == Nearest { SumCarriesNearest(m, big, half, k, sign); }
  }

  lemma SumCarriesNearest(m: U64, big: nat, half: nat, k: nat, sign: bool)
    requires m >= T63 && 2 * half == High(m) + big >= T128
    requires RoundsToMultiple(half, T64, High(k), k % 2 == 0, sign, Nearest)
    ensures RoundsToMultiple(m * 0x8000_0000_0000_0000 + big, T64, High(k), k % 2 == 0, sign, Nearest) <==>
            Absorbs(m, big, T63, true, RoundsAway(sign, Nearest), false, Nearest)
  {
    var c: int := T64 - m;
    assert big >= c * 0x1_0000_0000_0000_0000;
    assert c >= 2 ==> big > 3 * T63;
  }

  lemma DifferenceInBinadeNearest(m: U64, big: nat, k: nat, least: bool, sign: bool)
    requires m >= T63 && 0 < big && High(m) - 2 * big >= T127
    requires RoundsToMultiple(High(m) - big, T64, High(k), k % 2 == 0, sign, Nearest)
    ensures RoundsToMultiple(High(m) - 2 * big, T64, High(k), k % 2 == 0, sign, Nearest) <==>
            Absorbs(m, big, T63, false, RoundsAway(sign, Nearest), least, Nearest)
  {
    var u: int := m - k;
    assert u >= 0;
    if u == 0 {
      assert big <= T63;
    } else if u == 1 {
      assert T63 <= big <= 3 * T63;
    } else {
      assert big >= 3 * T63;
    }
  }

  lemma DifferenceInBinadeWhole(m: U64, big: nat, k: nat, least: bool, sign: bool, mode: Mode)
    requires RoundsAway(sign, mode)
    requires m >= T63 && 0 < big && High(m) - 2 * big >= T127
    requires RoundsToMultiple(High(m) - big, T64, High(k), k % 2 == 0, sign, mode)
    ensures RoundsToMultiple(High(m) - 2 * big, T64, High(k), k % 2 == 0, sign, mode) <==>
            Absorbs(m, big, T63, false, RoundsAway(sign, mode), least, mode)
  {
    var u: int := m - k;
    assert u >= 0;
    if u == 0 {
      assert big < T64;
    } else {
      assert big >= T64;
    }
  }

  lemma DifferenceInBinadeNext(m: U64, big: nat, k: nat, least: bool, sign: bool, mode: Mode)
    requires TowardZero(sign, mode)
    requires m >= T63 && 0 < big && High(m) - 2 * big >= T127
    requires RoundsToMultiple(High(m) - big, T64, High(k), k % 2 == 0, sign, mode)
    ensures RoundsToMultiple(High(m) - 2 * big, T64, High(k), k % 2 == 0, sign, mode) <==>
            Absorbs(m, big, T63, false, RoundsAway(sign, mode), least, mode)
  {
    var u: int := m - k;
    assert u >= 1;
    if u == 1 {
      assert big <= T64;
    } else {
      assert big > T64;
    }
  }

  lemma DifferenceInBinade(m: U64, big: nat, k: nat, least: bool, sign: bool, mode: Mode)
    requires m >= T63 && 0 < big && High(m) - 2 * big >= T127
    requires RoundsToMultiple(High(m) - big, T64, High(k), k % 2 == 0, sign, mode)
    ensures RoundsToMultiple(High(m) - 2 * big, T64, High(k), k % 2 == 0, sign, mode) <==>
            Absorbs(m, big, T63, false, RoundsAway(sign, mode), least, mode)
  {
    hide RoundsToMultiple, Absorbs;
    if mode == Nearest {
      DifferenceInBinadeNearest(m, big, k, least, sign);
    } else if TowardZero(sign, mode) {
      DifferenceInBinadeNext(m, big, k, least, sign, mode);
    } else {
      DifferenceInBinadeWhole(m, big, k, least, sign, mode);
    }
  }

  lemma DifferenceCrosses(m: U64, big: nat, k: nat, sign: bool, mode: Mode)
    requires m >= T63 && High(m) - big >= T127 > High(m) - 2 * big
    requires RoundsToMultiple(High(m) - big, T64, High(k), k % 2 == 0, sign, mode)
    ensures k == T63 && RoundsToMultiple(2 * (High(m) - 2 * big), T64, T128, true, sign, mode) <==>
            Absorbs(m, big, T63, false, RoundsAway(sign, mode), false, mode)
  {
  }

  lemma DifferenceBorrows(m: U64, big: nat, k: nat, sign: bool, mode: Mode)
    requires m >= T63 && High(m) - big < T127
    requires RoundsToMultiple(2 * (High(m) - big), T64, High(k), k % 2 == 0, sign, mode)
    ensures RoundsToMultiple(2 * (High(m) - 2 * big), T64, High(k), k % 2 == 0, sign, mode) <==>
            Absorbs(m, big, T63, false, RoundsAway(sign, mode), false, mode)
  {
  }

  /** With the least normal exponent the grid goes on below the binade, in whole units of the denormal operand. */
  lemma DifferenceDenormal(m: U64, b: nat, k: nat, sign: bool, mode: Mode)
    requires m >= T63 && 0 < b < T63 && High(m) - b * 0x8000_0000_0000_0000 < T127
    requires RoundsToMultiple(High(m) - b * 0x8000_0000_0000_0000, T64, High(k), k % 2 == 0, sign, mode)
    ensures RoundsToMultiple(High(m) - High(b), T64, High(k), k % 2 == 0, sign, mode) <==>
            Absorbs(m, b * 0x8000_0000_0000_0000, T63, false, RoundsAway(sign, mode), true, mode)
  {
  }

  lemma DifferenceReaches(m: U64, b: nat, mode: Mode, away: bool)
    requires m >= T63 && 0 < b < T63 && High(m) - b * 0x8000_0000_0000_0000 >= T127 > High(m) - High(b)
    ensures !Absorbs(m, b * 0x8000_0000_0000_0000, T63, false, away, true, mode)
  {
  }

  // ----- the result in each binade -----

  /** Half of the denormal operand is part of the sum the code rounds. */
  lemma MixedSumCode(a: F80, b: F80, mode: Mode)
    requires Mixed(a, b) && a.sign == b.sign
    ensures var y := High(a.signif) + HalfParts(a, b);
            if y < T128 then
              AddOrdered(a, b, mode) == Pack(ShiftRightRound(y, 64, a.sign, mode), a.exp, a.sign)
            else
              && y % 2 == 0 && y / 2 < T128
              && AddOrdered(a, b, mode) == Pack(ShiftRightRound(y / 2, 64, a.sign, mode), a.exp + 1, a.sign)
  {
    hide ShiftRightRound, NormalizeRound, Pack, Pow2, HalfParts;
    var y, e := High(a.signif) + HalfParts(a, b), QuantumExp(a);
    HalfMagnitude(a, b, mode);
    if y < T128 {
      PackedFull(y, e, a.sign, mode);
    } else {
      assert (y - T128) % 2 == 0 by { EvenCarry(a, b); }
      HalvedSum(a, HalfParts(a, b), mode);
      PackedFull(y / 2, e + 1, a.sign, mode);
    }
  }

  lemma EvenCarry(a: F80, b: F80)
    requires a.exp <= 64 && High(a.signif) + HalfParts(a, b) >= T128
    ensures (High(a.signif) + HalfParts(a, b) - T128) % 2 == 0
  {
    OverflowIsEven(a.signif, b.signif, a.exp);
  }

  lemma MixedSumIff(a: F80, b: F80, mode: Mode)
    requires Mixed(a, b) && a.sign == b.sign
    ensures Conforms(a.sign, Magnitude(a) + Magnitude(b), mode, AddOrdered(a, b, mode)) <==>
            Absorbs(a.signif, HalfParts(a, b), T63, true, RoundsAway(a.sign, mode), false, mode)
  {
    hide ShiftRightRound, Pack, Pow2, HalfParts, AddOrdered, Conforms, Absorbs, Times, Real2, RoundsToMultiple,
      Magnitude;
    var big, e, m: nat := HalfParts(a, b), QuantumExp(a), a.signif;
    HalfMagnitude(a, b, mode);
    MixedSumCode(a, b, mode);
    TimesLinear(High(m), 2 * big, Real2(e - 64));
    if High(m) + 2 * big < T128 {
      SumInBinadeIff(m, big, e, a.sign, mode);
    } else {
      HalvedValue(m * 0x8000_0000_0000_0000 + big, e);
      if High(m) + big < T128 {
        SumCrossesIff(m, big, e, a.sign, mode);
      } else {
        SumCarriesIff(m, big, (High(m) + big) / 2, e, a.sign, mode);
      }
    }
  }

  lemma SumInBinadeIff(m: U64, big: nat, e: int, sign: bool, mode: Mode)
    requires m >= T63 && 0 < big && High(m) + 2 * big < T128 && MIN_QUANTUM <= e <= MAX_QUANTUM
    ensures Conforms(sign, Times(High(m) + 2 * big, Real2(e - 64)), mode,
                     Pack(ShiftRightRound(High(m) + big, 64, sign, mode), e + 63 + BIAS80, sign)) <==>
            Absorbs(m, big, T63, true, RoundsAway(sign, mode), false, mode)
  {
    hide ShiftRightRound, Pack, Conforms, Absorbs, Times, Real2, RoundsToMultiple;
    var k := ShiftRightRound(High(m) + big, 64, sign, mode);
    UpperHalf(High(m) + big, sign, mode);
    SumInBinade(m, big, k, sign, mode);
    DigitIff(High(m) + 2 * big, e, k, sign, mode);
  }

  lemma SumCrossesIff(m: U64, big: nat, e: int, sign: bool, mode: Mode)
    requires m >= T63 && High(m) + big < T128 <= High(m) + 2 * big && MIN_QUANTUM <= e < MAX_QUANTUM - 1
    ensures Conforms(sign, Times(m * 0x8000_0000_0000_0000 + big, Real2(e + 1 - 64)), mode,
                     Pack(ShiftRightRound(High(m) + big, 64, sign, mode), e + 63 + BIAS80, sign)) <==>
            Absorbs(m, big, T63, true, RoundsAway(sign, mode), false, mode)
  {
    hide ShiftRightRound, Pack, Conforms, Absorbs, Times, Real2, RoundsToMultiple;
    var k := ShiftRightRound(High(m) + big, 64, sign, mode);
    UpperHalf(High(m) + big, sign, mode);
    SumCrosses(m, big, k, sign, mode);
    CrossesUp(m * 0x8000_0000_0000_0000 + big, e, k, sign, mode);
  }

  lemma SumCarriesIff(m: U64, big: nat, half: nat, e: int, sign: bool, mode: Mode)
    requires m >= T63 && big < T127 && 2 * half == High(m) + big >= T128 && MIN_QUANTUM <= e < MAX_QUANTUM
    ensures half < T128
    ensures Conforms(sign, Times(m * 0x8000_0000_0000_0000 + big, Real2(e + 1 - 64)), mode,
                     Pack(ShiftRightRound(half, 64, sign, mode), e + 64 + BIAS80, sign)) <==>
            Absorbs(m, big, T63, true, RoundsAway(sign, mode), false, mode)
  {
    hide ShiftRightRound, Pack, Conforms, Absorbs, Times, Real2, RoundsToMultiple;
    var k := ShiftRightRound(half, 64, sign, mode);
    UpperHalf(half, sign, mode);
    SumCarries(m, big, half, k, sign, mode);
    DigitIff(m * 0x8000_0000_0000_0000 + big, e + 1, k, sign, mode);
  }

  lemma HalvedValue(half: nat, e: int)
    ensures Times(2 * half, Real2(e - 64)) == Times(half, Real2(e + 1 - 64))
  {
    hide Times, Real2;
    Real2Succ(e - 64);
    TimesTwice(half, Real2(e - 64));
  }

  /** A digit of the lower binade is right for a value in the upper one only if it is the power of two between them. */
  lemma CrossesUp(half: U128, e: int, k: U128, sign: bool, mode: Mode)
    requires T127 <= half && T63 <= k <= T64 && MIN_QUANTUM <= e < MAX_QUANTUM - 1
    ensures Conforms(sign, Times(half, Real2(e + 1 - 64)), mode, Pack(k, e + 63 + BIAS80, sign)) <==>
            k == T64 && RoundsToMultiple(half, T64, T127, true, sign, mode)
  {
    hide Conforms, Times, Real2, RoundsToMultiple;
    var v, g := Times(half, Real2(e + 1 - 64)), Pack(T63, e + 64 + BIAS80, sign);
    LeadingBitBounds(half, e + 1);
    TimesPositive(T63, Real2(e + 1));
    if k == T64 {
      assert Pack(k, e + 63 + BIAS80, sign) == g;
      DigitIff(half, e + 1, T63, sign, mode);
    } else {
      PackValue(k, e + 63 + BIAS80, sign);
      PackValue(T63, e + 64 + BIAS80, sign);
      CarryKeepsValue(e);
      TimesMonotone(k, T64, Real2(e));
      BelowGreatest(v, e + 2);
      Overtaken(sign, v, mode, Pack(k, e + 63 + BIAS80, sign), g);
    }
  }

  lemma BelowGreatest(v: real, e: int)
    requires v < Times(T63, Real2(e)) && e <= MAX_QUANTUM
    ensures v <= GreatestFinite()
  {
    hide Times, Real2;
    BinadeOrder(e, MAX_QUANTUM);
    TimesMonotone(T63, T64 - 1, Real2(MAX_QUANTUM));
  }

  lemma MixedDifferenceCode(a: F80, b: F80, mode: Mode)
    requires Mixed(a, b) && a.sign != b.sign
    ensures var y := High(a.signif) - HalfParts(a, b);
            && 0 < y < T128
            && AddOrdered(a, b, mode) == NormalizeRound(y, Unbias(a.exp), a.sign, mode)
  {
    hide ShiftRightRound, NormalizeRound, Pow2, HalfParts;
    HalfMagnitude(a, b, mode);
  }

  /** Above the least exponent the difference stays within one binade of the normal operand. */
  lemma MixedDifferenceIff(a: F80, b: F80, mode: Mode)
    requires Mixed(a, b) && a.sign != b.sign && a.exp >= 2
    ensures Conforms(a.sign, Magnitude(a) - Magnitude(b), mode, AddOrdered(a, b, mode)) <==>
            Absorbs(a.signif, HalfParts(a, b), T63, false, RoundsAway(a.sign, mode), false, mode)
  {
    hide ShiftRightRound, Pack, Pow2, HalfParts, AddOrdered, Conforms, Absorbs, Times, Real2, RoundsToMultiple,
      Magnitude, NormalizeRound;
    var big, e, m := HalfParts(a, b), QuantumExp(a), a.signif;
    HalfMagnitude(a, b, mode);
    MixedDifferenceCode(a, b, mode);
    TimesLinear(High(m), 2 * big, Real2(e - 64));
    var y: U128 := High(m) - big;
    if y >= T127 {
      PackedFull(y, e, a.sign, mode);
      if High(m) - 2 * big >= T127 {
        DifferenceInBinadeIff(m, big, e, false, a.sign, mode);
      } else {
        DifferenceCrossesIff(m, big, e, a.sign, mode);
      }
    } else {
      DoubledCode(y, e, a.sign, mode);
      DifferenceBorrowsIff(m, big, e, a.sign, mode);
    }
  }

  lemma DifferenceInBinadeIff(m: U64, big: nat, e: int, least: bool, sign: bool, mode: Mode)
    requires m >= T63 && 0 < big && High(m) - 2 * big >= T127 && MIN_QUANTUM <= e <= MAX_QUANTUM
    ensures Conforms(sign, Times(High(m) - 2 * big, Real2(e - 64)), mode,
                     Pack(ShiftRightRound(High(m) - big, 64, sign, mode), e + 63 + BIAS80, sign)) <==>
            Absorbs(m, big, T63, false, RoundsAway(sign, mode), least, mode)
  {
    hide ShiftRightRound, Pack, Conforms, Absorbs, Times, Real2, RoundsToMultiple;
    var k := ShiftRightRound(High(m) - big, 64, sign, mode);
    UpperHalf(High(m) - big, sign, mode);
    DifferenceInBinade(m, big, k, least, sign, mode);
    DigitIff(High(m) - 2 * big, e, k, sign, mode);
  }

  lemma DifferenceCrossesIff(m: U64, big: nat, e: int, sign: bool, mode: Mode)
    requires m >= T63 && High(m) - big >= T127 > High(m) - 2 * big && 4 * big < T127
    requires MIN_QUANTUM < e < MAX_QUANTUM
    ensures Conforms(sign, Times(High(m) - 2 * big, Real2(e - 64)), mode,
                     Pack(ShiftRightRound(High(m) - big, 64, sign, mode), e + 63 + BIAS80, sign)) <==>
            Absorbs(m, big, T63, false, RoundsAway(sign, mode), false, mode)
  {
    hide ShiftRightRound, Pack, Conforms, Absorbs, Times, Real2, RoundsToMultiple;
    var k := ShiftRightRound(High(m) - big, 64, sign, mode);
    UpperHalf(High(m) - big, sign, mode);
    DifferenceCrosses(m, big, k, sign, mode);
    CrossesDown(High(m) - 2 * big, e, k, sign, mode);
  }

  lemma DifferenceBorrowsIff(m: U64, big: nat, e: int, sign: bool, mode: Mode)
    requires m >= T63 && High(m) - big < T127 && 4 * big < T127 && MIN_QUANTUM < e <= MAX_QUANTUM
    ensures Conforms(sign, Times(High(m) - 2 * big, Real2(e - 64)), mode,
                     Pack(ShiftRightRound(2 * (High(m) - big), 64, sign, mode), e - 1 + 63 + BIAS80, sign)) <==>
            Absorbs(m, big, T63, false, RoundsAway(sign, mode), false, mode)
  {
    hide ShiftRightRound, Pack, Conforms, Absorbs, Times, Real2, RoundsToMultiple;
    var x, k := High(m) - 2 * big, ShiftRightRound(2 * (High(m) - big), 64, sign, mode);
    HalvedValue(x, e - 1);
    UpperHalf(2 * (High(m) - big), sign, mode);
    DifferenceBorrows(m, big, k, sign, mode);
    DigitIff(2 * x, e - 1, k, sign, mode);
  }

  lemma DoubledCode(y: U128, e: int, sign: bool, mode: Mode)
    requires 0x4000_0000_0000_0000_0000_0000_0000_0000 <= y < T127 && MIN_QUANTUM < e <= MAX_QUANTUM
    ensures NormalizeRound(y, e + 63, sign, mode) ==
            Pack(ShiftRightRound(2 * y, 64, sign, mode), e - 1 + 63 + BIAS80, sign)
  {
    hide NormalizeRound, ShiftRightRound, Clz128, Pack;
    AtMostOneZero(y);
    LeadBelow(y);
    NormalBranch(y, e + 63, sign, mode);
    assert Shl(y, 1) == 2 * y;
  }

  lemma CrossesDown(x: U128, e: int, k: U128, sign: bool, mode: Mode)
    requires 0x4000_0000_0000_0000_0000_0000_0000_0000 <= x < T127 && T63 <= k <= T64
    requires MIN_QUANTUM < e < MAX_QUANTUM
    ensures Conforms(sign, Times(x, Real2(e - 64)), mode, Pack(k, e + 63 + BIAS80, sign)) <==>
            k == T63 && RoundsToMultiple(2 * x, T64, T128, true, sign, mode)
  {
    hide Conforms, Times, Real2, RoundsToMultiple;
    var v, g := Times(x, Real2(e - 64)), Pack(T63, e + 63 + BIAS80, sign);
    HalvedValue(x, e - 1);
    LeadingBitBounds(2 * x, e - 1);
    TimesPositive(T63, Real2(e - 1));
    if k == T63 {
      assert g == Pack(T64, e - 1 + 63 + BIAS80, sign);
      DigitIff(2 * x, e - 1, T64, sign, mode);
    } else {
      PackValue(k, e + 63 + BIAS80, sign);
      PackValue(T63, e + 63 + BIAS80, sign);
      TimesMonotone(T63, k, Real2(e));
      BelowGreatest(v, e);
      Overtaken(sign, v, mode, Pack(k, e + 63 + BIAS80, sign), g);
    }
  }

  // ----- the least normal exponent -----

  lemma LeastParts(a: F80, b: F80)
    requires a.exp == EXP_MIN
    ensures HalfParts(a, b) == b.signif * 0x8000_0000_0000_0000 && 2 * HalfParts(a, b) == High(b.signif)
  {
    Pow2Words();
  }

  /** The exact difference is a denormal number, and the code returns a normal one. */
  lemma LeastReaches(a: F80, b: F80, k: U128, mode: Mode)
    requires Mixed(a, b) && a.sign != b.sign && a.exp == EXP_MIN && a.signif - b.signif < T63 <= k <= T64
    ensures !Conforms(a.sign, Times(a.signif - b.signif, Real2(MIN_QUANTUM)), mode, Pack(k, EXP_MIN, a.sign))
  {
    hide Conforms, Times, Real2, Pack;
    var j, q, g := a.signif - b.signif, Real2(MIN_QUANTUM), F80(a.signif - b.signif, EXP_DENORMAL, a.sign);
    PackValue(k, EXP_MIN, a.sign);
    TimesMonotone(j, k, q);
    TimesMonotone(j, T63, q);
    TimesPositive(j, q);
    BelowGreatest(Times(j, q), MIN_QUANTUM);
    Overtaken(a.sign, Times(j, q), mode, Pack(k, EXP_MIN, a.sign), g);
  }

  lemma LeastDenormalCode(y: U128, sign: bool, mode: Mode)
    requires 0 < y < T127
    ensures NormalizeRound(y, Unbias(EXP_MIN), sign, mode) ==
            Pack(ShiftRightRound(y, 64, sign, mode), EXP_DENORMAL, sign)
    ensures RoundsToMultiple(y, T64, High(ShiftRightRound(y, 64, sign, mode)),
                             ShiftRightRound(y, 64, sign, mode) % 2 == 0, sign, mode)
    ensures ShiftRightRound(y, 64, sign, mode) <= T63
  {
    hide NormalizeRound, ShiftRightRound, Clz128, Pack, RoundsToMultiple;
    LeadBelow(y);
    DenormalBranch(y, Unbias(EXP_MIN), sign, mode);
    ShiftRightRounds(y, 64, sign, mode);
    RoundsToHigh(y, ShiftRightRound(y, 64, sign, mode), sign, mode);
    AtMostNormal(y, ShiftRightRound(y, 64, sign, mode), sign, mode);
  }

  lemma LeastDenormalIff(j: nat, k: U128, sign: bool, mode: Mode)
    requires 0 < j < T63 && k <= T63
    ensures Conforms(sign, Times(j, Real2(MIN_QUANTUM)), mode, Pack(k, EXP_DENORMAL, sign)) <==>
            RoundsToMultiple(High(j), T64, High(k), k % 2 == 0, sign, mode)
  {
    hide Conforms, Times, Real2, Pack, RoundsToMultiple, RoundsOnGrid, RoundsUpToNormal;
    var q := Real2(MIN_QUANTUM);
    TimesPositive(j, q);
    TimesMonotone(j, T63, q);
    Pow2Words();
    TimesShift(j, 64, MIN_QUANTUM - 64);
    assert High(j) == j * Pow2(64);
    RoundsOnResultGrid(High(j), k, MIN_QUANTUM, sign, mode);
    WholeUnits(j, sign, mode);
    BelowNormalIff(Times(j, q), k, sign, mode);
  }

  lemma LeastDifferenceIff(a: F80, b: F80, mode: Mode)
    requires Mixed(a, b) && a.sign != b.sign && a.exp == EXP_MIN
    ensures Conforms(a.sign, Magnitude(a) - Magnitude(b), mode, AddOrdered(a, b, mode)) <==>
            Absorbs(a.signif, HalfParts(a, b), T63, false, RoundsAway(a.sign, mode), true, mode)
  {
    hide ShiftRightRound, Pack, Pow2, HalfParts, AddOrdered, Conforms, Absorbs, Times, Real2, RoundsToMultiple,
      NormalizeRound;
    var big, m, q := HalfParts(a, b), a.signif, Real2(MIN_QUANTUM);
    LeastParts(a, b);
    HalfMagnitude(a, b, mode);
    MixedDifferenceCode(a, b, mode);
    TimesLinear(m, b.signif, q);
    TimesLinear(High(m), 2 * big, Real2(MIN_QUANTUM - 64));
    var y: U128 := High(m) - big;
    if y >= T127 {
      PackedFull(y, MIN_QUANTUM, a.sign, mode);
      if High(m) - 2 * big >= T127 {
        DifferenceInBinadeIff(m, big, MIN_QUANTUM, true, a.sign, mode);
      } else {
        DifferenceReaches(m, b.signif, mode, RoundsAway(a.sign, mode));
        UpperHalf(y, a.sign, mode);
        LeastReaches(a, b, ShiftRightRound(y, 64, a.sign, mode), mode);
      }
    } else {
      LeastDenormalCode(y, a.sign, mode);
      DifferenceDenormal(m, b.signif, ShiftRightRound(y, 64, a.sign, mode), a.sign, mode);
      LeastDenormalIff(m - b.signif, ShiftRightRound(y, 64, a.sign, mode), a.sign, mode);
    }
  }

  // ----- in units of the denormal operand -----

  lemma ScaledOrder(i: int, j: int, b: int, d: int, p: int, bp: int, dp: int)
    requires p > 0 && bp == b * p && dp == d * p
    ensures i * b < j * d <==> i * bp < j * dp
    ensures i * b == j * d <==> i * bp == j * dp
  {
    assert (i * b - j * d) * p == i * bp - j * dp;
    MultipleBound(i * b - j * d, p);
  }

  lemma ScaledAbsorbs(m: nat, b: nat, d: nat, p: nat, same: bool, away: bool, least: bool, mode: Mode)
    requires p > 0
    ensures Absorbs(m, b, d, same, away, least, mode) <==> Absorbs(m, b * p, d * p, same, away, least, mode)
  {
    var bp, dp := b * p, d * p;
    ScaledOrder(1, 1, b, d, p, bp, dp);
    ScaledOrder(1, 2, b, d, p, bp, dp);
    ScaledOrder(1, 3, b, d, p, bp, dp);
    ScaledOrder(2, 1, b, d, p, bp, dp);
    ScaledOrder(2, 3, b, d, p, bp, dp);
    ScaledOrder(4, 1, b, d, p, bp, dp);
    ScaledOrder(4, 3, b, d, p, bp, dp);
    ScaledOrder(4, 5, b, d, p, bp, dp);
  }

  /** The denormal operand does not matter beyond the half that the code adds. */
  predicate AbsorbsHalf(a: F80, b: F80, mode: Mode)
    requires a.exp >= 1
  {
    Absorbs(a.signif, b.signif, Pow2(a.exp - 1), a.sign == b.sign, RoundsAway(a.sign, mode), a.exp == EXP_MIN, mode)
  }

  lemma AbsorbsHalfScaled(a: F80, b: F80, mode: Mode)
    requires 1 <= a.exp <= 64
    ensures AbsorbsHalf(a, b, mode) <==>
            Absorbs(a.signif, HalfParts(a, b), T63, a.sign == b.sign, RoundsAway(a.sign, mode), a.exp == EXP_MIN, mode)
  {
    hide Absorbs, Pow2;
    Pow2Words();
    Pow2Add(a.exp - 1, 64 - a.exp);
    ScaledAbsorbs(a.signif, b.signif, Pow2(a.exp - 1), Pow2(64 - a.exp), a.sign == b.sign, RoundsAway(a.sign, mode),
        a.exp == EXP_MIN, mode);
  }

  lemma SumIgnoresLeast(m: nat, b: nat, d: nat, away: bool, least: bool, mode: Mode)
    ensures Absorbs(m, b, d, true, away, least, mode) <==> Absorbs(m, b, d, true, away, false, mode)
  {
  }

  /** f80_add on such operands returns what the standard asks for exactly when the missing half does not matter. */
  lemma MixedIff(a: F80, b: F80, mode: Mode)
    requires Mixed(a, b)
    ensures ConformsTo(Value(a) + Value(b), mode, AddOrdered(a, b, mode)) <==> AbsorbsHalf(a, b, mode)
    ensures Value(a) + Value(b) != 0.0 && !ReachesInfinity(Value(a) + Value(b), mode)
  {
    hide Conforms, ConformsTo, ReachesInfinity, AddOrdered, Magnitude, Absorbs, AbsorbsHalf, HalfParts;
    var x := if a.sign == b.sign then Magnitude(a) + Magnitude(b) else Magnitude(a) - Magnitude(b);
    FarMagnitudes(a, b);
    MixedBelowInfinity(a, b);
    AbsorbsHalfScaled(a, b, mode);
    ConformsSigned(a.sign, x, mode, AddOrdered(a, b, mode));
    ReachesInfinitySigned(a.sign, x, mode);
    if a.sign == b.sign {
      SumIgnoresLeast(a.signif, HalfParts(a, b), T63, RoundsAway(a.sign, mode), a.exp == EXP_MIN, mode);
      MixedSumIff(a, b, mode);
    } else if a.exp >= 2 {
      MixedDifferenceIff(a, b, mode);
    } else {
      LeastDifferenceIff(a, b, mode);
    }
  }

  lemma MixedBelowInfinity(a: F80, b: F80)
    requires Mixed(a, b)
    ensures Magnitude(a) + Magnitude(b) < FirstInfinite()
  {
    hide Times, Real2;
    FinerBelowBinade(a.signif, QuantumExp(a), 2);
    FinerBelowBinade(b.signif, QuantumExp(b), 2);
    Real2Monotone(2, MAX_QUANTUM);
    TimesGrows(T64, Real2(2), Real2(MAX_QUANTUM));
    TimesTwice(T63, Real2(2));
  }
}
