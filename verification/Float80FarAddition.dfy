/** f80_add on operands whose exponents are at least 65 apart. */
module Float80FarAddition {
  import opened PowersOfTwo
  import opened Float80
  import opened Float80Rounding
  import opened Float80Values
  import opened Float80Normalize
  import opened Float80Range
  import opened Float80Addition
  import opened Float80Compare

  const T62 := 0x4000_0000_0000_0000

  // ----- what is left of the smaller operand -----

  /** A shift by 65 halves the significand, with one rounding. */
  lemma HalvedSignificand(b: U64, sign: bool, mode: Mode)
    ensures RoundsToMultiple(b, 2, 2 * ShiftRightRound(High(b), 65, sign, mode),
                             ShiftRightRound(High(b), 65, sign, mode) % 2 == 0, sign, mode)
  {
    hide ShiftRightRound;
    var t := ShiftRightRound(High(b), 65, sign, mode);
    ShiftRightRounds(High(b), 65, sign, mode);
    Pow2Words();
    assert Pow2(65) == 2 * Pow2(64);
    assert t * Pow2(65) == t * 0x2_0000_0000_0000_0000;
  }

  /** Beyond that less than a quarter of the last place is left, but always something to round away from zero. */
  lemma QuarteredSignificand(b: U64, gap: nat, sign: bool, mode: Mode)
    requires b >= T63 && gap >= 66
    ensures ShiftRightRound(High(b), gap, sign, mode) <= T62
    ensures RoundsAway(sign, mode) ==> ShiftRightRound(High(b), gap, sign, mode) >= 1
  {
    if gap <= 127 {
      ShrBounds(b, gap);
      ShiftRightRoundCases(High(b), gap, sign, mode);
    }
  }

  lemma ShrBounds(b: U64, gap: nat)
    requires b >= T63 && 66 <= gap <= 127
    ensures 1 <= Shr(High(b), gap) < T62
  {
    hide Shr, LowBits;
    var q := Shr(High(b), gap);
    Pow2DoubleWords();
    Pow2Words();
    assert Pow2(66) == 4 * Pow2(64);
    Pow2Monotone(66, gap);
    Pow2Monotone(gap, 127);
    SplitBits(High(b), gap);
    if q >= T62 {
      MulLe(T62, 0x4_0000_0000_0000_0000, q, Pow2(gap));
    }
  }

  /** The aligned significand of a normal operand at least 65 places down. */
  lemma FarShift(b: U64, gap: nat, sign: bool, mode: Mode)
    requires b >= T63 && gap >= 65
    ensures var t := ShiftRightRound(High(b), gap, sign, mode);
            && t <= T63
            && (RoundsAway(sign, mode) ==> t >= 1)
            && (mode != Nearest && !RoundsAway(sign, mode) ==> t < T63)
            && (mode == Nearest ==> (t == T63 <==> gap == 65 && b == T64 - 1))
            && (mode == Nearest ==> (t > T62 <==> gap == 65 && b >= T63 + 2))
  {
    hide ShiftRightRound;
    if gap == 65 {
      HalvedSignificand(b, sign, mode);
    } else {
      QuarteredSignificand(b, gap, sign, mode);
    }
  }

  lemma ShrZeroIff(x: nat, n: nat)
    ensures Shr(x, n) == 0 <==> x < Pow2(n)
  {
    SplitBits(x, n);
    MultipleBound(Shr(x, n), Pow2(n));
  }

  lemma WholeWords(b: U64, n: nat)
    requires n >= 64
    ensures Low64(LowBits(High(b), n)) == 0
    ensures High(b) < Pow2(n) <==> b < Pow2(n - 64)
  {
    hide LowBits, Shr, Pow2, Low64;
    var w := Pow2(n - 64);
    Pow2Words();
    Pow2Add(n - 64, 64);
    SplitBits(High(b), n);
    MulAssoc(Shr(High(b), n), w, T64);
    LowWord(LowBits(High(b), n), b - Shr(High(b), n) * w);
  }

  lemma LowWord(low: nat, c: int)
    requires low == c * 0x1_0000_0000_0000_0000
    ensures Low64(low) == 0
  {
  }

  /** The aligned significand of a denormal operand; from 66 places down, a small one is lost altogether. */
  lemma FarDenormalShift(b: U64, gap: nat, sign: bool, mode: Mode)
    requires 0 < b < T63 && gap >= 65
    ensures var t := ShiftRightRound(High(b), gap, sign, mode);
            && t <= T62
            && (RoundsAway(sign, mode) ==> (t == 0 <==> 66 <= gap <= 127 && b < Pow2(gap - 65)))
  {
    hide ShiftRightRound, Shr, LowBits, Pow2;
    if gap == 65 {
      HalvedSignificand(b, sign, mode);
    } else {
      FarShiftSmall(High(b), gap, sign, mode);
      if gap <= 127 {
        WholeWords(b, gap - 1);
        ShrZeroIff(High(b), gap - 1);
        ShrStep(High(b), gap - 1);
        ShiftRightRoundCases(High(b), gap, sign, mode);
      } else {
        BeyondWord(High(b), gap, sign, mode);
      }
    }
  }

  lemma BeyondWord(i: U128, n: nat, sign: bool, mode: Mode)
    requires n > 127
    ensures ShiftRightRound(i, n, sign, mode) == if RoundsAway(sign, mode) && i != 0 then 1 else 0
  {
  }

  // ----- the digit the code keeps -----

  /** Rounding a whole number of places, more or less `t` of a place's 2^64 parts. */
  lemma SumDigit(a: U64, t: nat, k: nat, sign: bool, mode: Mode)
    requires t <= T63 && RoundsToMultiple(High(a) + t, T64, High(k), k % 2 == 0, sign, mode)
    requires TowardZero(sign, mode) ==> t < T64
    ensures k == if mode == Nearest then (if t == T63 && a % 2 == 1 then a + 1 else a)
                 else if RoundsAway(sign, mode) && t > 0 then a + 1 else a
  {
  }

  lemma DifferenceDigit(a: U64, t: nat, k: nat, sign: bool, mode: Mode)
    requires t <= T63 && RoundsToMultiple(High(a) - t, T64, High(k), k % 2 == 0, sign, mode)
    ensures k == if mode == Nearest then (if t == T63 && a % 2 == 1 then a - 1 else a)
                 else if RoundsAway(sign, mode) || t == 0 then a else a - 1
  {
  }

  /** Below a power of two the places are half as wide. */
  lemma BorrowDigit(t: nat, k: nat, sign: bool, mode: Mode)
    requires 1 <= t <= T63 && (RoundsAway(sign, mode) ==> t < T63)
    requires RoundsToMultiple(T128 - 2 * t, T64, High(k), k % 2 == 0, sign, mode)
    ensures k == if mode == Nearest then (if t > T62 then T64 - 1 else T64)
                 else if RoundsAway(sign, mode) then T64 else T64 - 1
  {
  }

  // ----- the code, as a digit on the grid of the result -----

  ghost predicate Far(a: F80, b: F80) {
    Normal(a) && Finite(b) && b.signif > 0 && a.exp - b.exp >= 65
  }

  /** What is left of the smaller operand. */
  function Aligned(a: F80, b: F80, mode: Mode): U128
    requires a.exp >= b.exp
  {
    ShiftRightRound(High(b.signif), a.exp - b.exp, b.sign, mode)
  }

  /** What is taken off the larger significand; chopping never takes nothing. */
  function Taken(t: nat, mode: Mode): nat {
    if mode == Chop && t == 0 then 1 else t
  }

  lemma AlignedBounds(a: F80, b: F80, mode: Mode)
    requires Far(a, b)
    ensures Aligned(a, b, mode) <= T63 && (TowardZero(b.sign, mode) ==> Aligned(a, b, mode) < T63)
  {
    hide ShiftRightRound;
    if b.exp == EXP_DENORMAL {
      FarDenormalShift(b.signif, a.exp - b.exp, b.sign, mode);
    } else {
      FarShift(b.signif, a.exp - b.exp, b.sign, mode);
    }
  }

  lemma FarSumCode(a: F80, b: F80, mode: Mode)
    requires Far(a, b) && a.sign == b.sign
    ensures var s := High(a.signif) + Aligned(a, b, mode);
            && T127 <= s < T128
            && AddOrdered(a, b, mode) == Pack(ShiftRightRound(s, 64, a.sign, mode), a.exp, a.sign)
  {
    hide ShiftRightRound, NormalizeRound, Pack;
    AlignedBounds(a, b, mode);
    PackedFull(High(a.signif) + Aligned(a, b, mode), QuantumExp(a), a.sign, mode);
  }

  lemma FarDifferenceCode(a: F80, b: F80, mode: Mode)
    requires Far(a, b) && a.sign != b.sign && a.signif > T63
    ensures var s := High(a.signif) - Taken(Aligned(a, b, mode), mode);
            && T127 <= s < T128
            && AddOrdered(a, b, mode) == Pack(ShiftRightRound(s, 64, a.sign, mode), a.exp, a.sign)
  {
    hide ShiftRightRound, NormalizeRound, Pack;
    AlignedBounds(a, b, mode);
    PackedFull(High(a.signif) - Taken(Aligned(a, b, mode), mode), QuantumExp(a), a.sign, mode);
  }

  /** Taking from a power of two moves the result down one binade, unless nothing is taken. */
  lemma FarBorrowCode(a: F80, b: F80, mode: Mode)
    requires Far(a, b) && a.sign != b.sign && a.signif == T63
    ensures var t := Taken(Aligned(a, b, mode), mode);
            && t <= T63
            && (t == 0 ==> AddOrdered(a, b, mode) == Pack(T64, a.exp - 1, a.sign))
            && (t > 0 ==>
                AddOrdered(a, b, mode) == Pack(ShiftRightRound(T128 - 2 * t, 64, a.sign, mode), a.exp - 1, a.sign))
  {
    hide ShiftRightRound, NormalizeRound, Clz128;
    AlignedBounds(a, b, mode);
    var t := Taken(Aligned(a, b, mode), mode);
    assert AddOrdered(a, b, mode) == NormalizeRound(T127 - t, Unbias(a.exp), a.sign, mode);
    if t == 0 {
      PackedFull(T127, QuantumExp(a), a.sign, mode);
      HighExact(a.sign, mode);
    } else {
      AtMostOneZero(T127 - t);
      LeadBelow(T127 - t);
      NormalBranch(T127 - t, Unbias(a.exp), a.sign, mode);
      assert Shl(T127 - t, 1) == T128 - 2 * t;
    }
  }

  lemma HighExact(sign: bool, mode: Mode)
    ensures ShiftRightRound(T127, 64, sign, mode) == T63
  {
    hide ShiftRightRound;
    AlignmentExact(T63, 64, sign, mode);
  }

  // ----- against the exact sum -----

  /** The smaller operand is less than half a unit in the last place of the larger one. */
  lemma FarMagnitude(a: F80, b: F80)
    requires Far(a, b)
    ensures 0.0 < Magnitude(b) && 2.0 * Magnitude(b) < Real2(QuantumExp(a))
  {
    hide Times, Real2, Pow2;
    var e, f := QuantumExp(a), QuantumExp(b);
    TimesPositive(b.signif, Real2(f));
    Pow2Words();
    TimesShift(1, 64, f);
    TimesShift(1, 63, f);
    TimesMonotone(b.signif, T64, Real2(f));
    TimesMonotone(b.signif, T63, Real2(f));
    Real2Succ(f + 63);
    Real2Succ(e - 1);
    if b.exp == EXP_DENORMAL {
      Real2Monotone(f + 64, e);
    } else {
      Real2Monotone(f + 64, e - 1);
    }
  }

  lemma HalfOfPow2(n: nat)
    requires n >= 1
    ensures Pow2(n) == 2 * Pow2(n - 1)
  {
  }

  /** When it is more than a quarter of one. */
  lemma QuarterIff(a: F80, b: F80)
    requires Far(a, b)
    ensures 4.0 * Magnitude(b) > Real2(QuantumExp(a)) <==>
            a.exp - b.exp == 65 && b.signif > if b.exp == EXP_DENORMAL then T62 else T63
  {
    hide Times, Real2, Pow2;
    var e, f := QuantumExp(a), QuantumExp(b);
    Pow2Words();
    HalfOfPow2(63);
    TimesShift(1, 64, f);
    TimesShift(1, 63, f);
    TimesShift(1, 62, f);
    TimesMonotone(T63, b.signif, Real2(f));
    TimesMonotone(T62, b.signif, Real2(f));
    TimesMonotone(b.signif, T64, Real2(f));
    TimesMonotone(b.signif, T63, Real2(f));
    Real2Succ(f + 63);
    Real2Succ(f + 62);
    Real2Succ(e - 1);
    Real2Succ(e - 2);
    if a.exp - b.exp > 65 {
      Real2Monotone(f + (if b.exp == EXP_DENORMAL then 63 else 64), e - 2);
    }
  }

  /**
   The code keeps the wrong digit: nothing is left of an operand that should move the result, or
   half of it is rounded to a tie of the larger operand, or its size against half a unit below a
   power of two comes out wrong.
   */
  ghost predicate WrongDigit(a: F80, b: F80, mode: Mode)
    requires a.exp >= b.exp
  {
    var t := Aligned(a, b, mode);
    || (RoundsAway(b.sign, mode) && t == 0)
    || (mode == Nearest && t == T63 && a.signif % 2 == 1)
    || (&& mode == Nearest && a.sign != b.sign && a.signif == T63
        && (t > T62) != (4.0 * Magnitude(b) > Real2(QuantumExp(a))))
  }

  lemma FarSumIff(a: F80, b: F80, mode: Mode)
    requires Far(a, b) && a.sign == b.sign
    ensures AddOrdered(a, b, mode).sign == a.sign
    ensures Conforms(a.sign, Magnitude(a) + Magnitude(b), mode, AddOrdered(a, b, mode)) <==> !WrongDigit(a, b, mode)
  {
    hide ShiftRightRound, Pack, Conforms, Real2, Times, AddOrdered, RoundsToMultiple, Aligned;
    var t, q := Aligned(a, b, mode), Real2(QuantumExp(a));
    FarSumCode(a, b, mode);
    AlignedBounds(a, b, mode);
    FarMagnitude(a, b);
    UpperHalf(High(a.signif) + t, a.sign, mode);
    var k := ShiftRightRound(High(a.signif) + t, 64, a.sign, mode);
    SumDigit(a.signif, t, k, a.sign, mode);
    PackValue(k, a.exp, a.sign);
    OnePlace(a.signif, q);
    TimesMonotone(T63, a.signif, q);
    TimesMonotone(a.signif + 1, T64, q);
    CarryKeepsValue(QuantumExp(a));
    PackedOnGridIff(Magnitude(a) + Magnitude(b), QuantumExp(a), k, a.sign, mode);
  }

  lemma FarDifferenceIff(a: F80, b: F80, mode: Mode)
    requires Far(a, b) && a.sign != b.sign && a.signif > T63
    ensures AddOrdered(a, b, mode).sign == a.sign
    ensures Conforms(a.sign, Magnitude(a) - Magnitude(b), mode, AddOrdered(a, b, mode)) <==> !WrongDigit(a, b, mode)
  {
    hide ShiftRightRound, Pack, Conforms, Real2, Times, AddOrdered, RoundsToMultiple, Aligned;
    var t, q := Taken(Aligned(a, b, mode), mode), Real2(QuantumExp(a));
    FarDifferenceCode(a, b, mode);
    AlignedBounds(a, b, mode);
    FarMagnitude(a, b);
    UpperHalf(High(a.signif) - t, a.sign, mode);
    var k := ShiftRightRound(High(a.signif) - t, 64, a.sign, mode);
    DifferenceDigit(a.signif, t, k, a.sign, mode);
    PackValue(k, a.exp, a.sign);
    OnePlace(a.signif, q);
    TimesMonotone(T63, a.signif - 1, q);
    TimesMonotone(a.signif, T64, q);
    CarryKeepsValue(QuantumExp(a));
    PackedOnGridIff(Magnitude(a) - Magnitude(b), QuantumExp(a), k, a.sign, mode);
  }

  /** The digit below a power of two: T64 is the power itself. */
  lemma BorrowedDigit(a: F80, b: F80, mode: Mode) returns (k: U128)
    requires Far(a, b) && a.sign != b.sign && a.signif == T63
    ensures AddOrdered(a, b, mode) == Pack(k, a.exp - 1, a.sign)
    ensures k == if mode == Nearest then (if Aligned(a, b, mode) > T62 then T64 - 1 else T64)
                 else if RoundsAway(a.sign, mode) || Taken(Aligned(a, b, mode), mode) == 0 then T64 else T64 - 1
  {
    hide ShiftRightRound, Pack, AddOrdered, RoundsToMultiple, Aligned;
    var t := Taken(Aligned(a, b, mode), mode);
    FarBorrowCode(a, b, mode);
    AlignedBounds(a, b, mode);
    if t == 0 {
      k := T64;
    } else {
      k := ShiftRightRound(T128 - 2 * t, 64, a.sign, mode);
      UpperHalf(T128 - 2 * t, a.sign, mode);
      BorrowDigit(t, k, a.sign, mode);
    }
  }

  lemma FarBorrowIff(a: F80, b: F80, mode: Mode)
    requires Far(a, b) && a.sign != b.sign && a.signif == T63
    ensures AddOrdered(a, b, mode).sign == a.sign
    ensures Conforms(a.sign, Magnitude(a) - Magnitude(b), mode, AddOrdered(a, b, mode)) <==> !WrongDigit(a, b, mode)
  {
    hide Pack, Conforms, Real2, Times, AddOrdered, Aligned;
    var k := BorrowedDigit(a, b, mode);
    var e := QuantumExp(a) - 1;
    Real2Succ(e);
    FarMagnitude(a, b);
    CarryKeepsValue(e);
    PackValue(k, a.exp - 1, a.sign);
    OnePlace(T64, Real2(e));
    TimesMonotone(T63, T64 - 1, Real2(e));
    PackedOnGridIff(Magnitude(a) - Magnitude(b), e, k, a.sign, mode);
  }

  lemma FarIff(a: F80, b: F80, mode: Mode)
    requires Far(a, b)
    ensures AddOrdered(a, b, mode).sign == a.sign
    ensures ConformsTo(Value(a) + Value(b), mode, AddOrdered(a, b, mode)) <==> !WrongDigit(a, b, mode)
    ensures a.sign == (Value(a) + Value(b) < 0.0) && Value(a) + Value(b) != 0.0
    ensures !ReachesInfinity(Value(a) + Value(b), mode)
  {
    hide Conforms, ConformsTo, ReachesInfinity, WrongDigit, AddOrdered, Magnitude;
    var x := if a.sign == b.sign then Magnitude(a) + Magnitude(b) else Magnitude(a) - Magnitude(b);
    FarMagnitudes(a, b);
    FarBelowInfinity(a, b);
    ConformsSigned(a.sign, x, mode, AddOrdered(a, b, mode));
    ReachesInfinitySigned(a.sign, x, mode);
    if a.sign == b.sign {
      FarSumIff(a, b, mode);
    } else if a.signif > T63 {
      FarDifferenceIff(a, b, mode);
    } else {
      FarBorrowIff(a, b, mode);
    }
  }

  lemma FarBelowInfinity(a: F80, b: F80)
    requires Far(a, b)
    ensures Magnitude(a) + Magnitude(b) < FirstInfinite() && 0.0 < Magnitude(b)
  {
    hide Real2, Times;
    var q := Real2(QuantumExp(a));
    FarMagnitude(a, b);
    OnePlace(a.signif, q);
    TimesMonotone(a.signif + 1, T64, q);
    Real2Monotone(QuantumExp(a), MAX_QUANTUM);
    TimesGrows(T64, q, Real2(MAX_QUANTUM));
  }

  // ----- the wrong digits, kind by kind -----

  /**
   Two normal operands 65 places apart, to nearest: half of the smaller one is rounded to a tie
   of the larger one, or down to one below a power of two.
   */
  predicate SplitsTie(a: F80, b: F80, mode: Mode) {
    && mode == Nearest && a.exp - b.exp == 65
    && (|| (b.signif == T64 - 1 && a.signif % 2 == 1)
        || (a.sign != b.sign && a.signif == T63 && b.signif == T63 + 1))
  }

  lemma WrongDigitNormal(a: F80, b: F80, mode: Mode)
    requires Far(a, b) && Normal(b)
    ensures WrongDigit(a, b, mode) <==> SplitsTie(a, b, mode)
  {
    hide ShiftRightRound, Magnitude, Real2;
    FarShift(b.signif, a.exp - b.exp, b.sign, mode);
    QuarterIff(a, b);
  }

  /**
   A denormal operand at least 65 places down: all of it is lost when it should move the result
   away from zero, or half of it is missing below a power of two.
   */
  predicate LosesDenormal(a: F80, b: F80, mode: Mode) {
    || (66 <= a.exp <= 127 && RoundsAway(b.sign, mode) && b.signif < Pow2(a.exp - 65))
    || (mode == Nearest && a.exp == 65 && a.signif == T63 && a.sign != b.sign && b.signif > T62)
  }

  lemma WrongDigitDenormal(a: F80, b: F80, mode: Mode)
    requires Far(a, b) && b.exp == EXP_DENORMAL
    ensures WrongDigit(a, b, mode) <==> LosesDenormal(a, b, mode)
  {
    hide ShiftRightRound, Magnitude, Real2, Pow2;
    FarDenormalShift(b.signif, a.exp - b.exp, b.sign, mode);
    QuarterIff(a, b);
  }
}
