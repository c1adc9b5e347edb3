/** f80_add against the exact sum, for every two finite operands. */
module Float80Sum {
  import opened PowersOfTwo
  import opened Float80
  import opened Float80Values
  import opened Float80Normalize
  import opened Float80Range
  import opened Float80Addition
  import opened Float80Compare
  import opened Float80FarAddition
  import opened Float80MixedAddition

  // ----- a zero operand -----

  lemma ZeroAddsNothing(a: F80, b: F80, mode: Mode)
    requires Normal(a) && Finite(b) && b.signif == 0
    ensures AddOrdered(a, b, mode) == a
    ensures ConformsTo(Value(a) + Value(b), mode, a) && !ReachesInfinity(Value(a) + Value(b), mode)
    ensures Value(a) + Value(b) != 0.0
  {
    hide ShiftRightRound, NormalizeRound, ConformsTo, Conforms, ReachesInfinity, Times, Real2;
    ZeroShift(a.exp - b.exp, b.sign, mode);
    PackedFull(High(a.signif), QuantumExp(a), a.sign, mode);
    AlignmentExact(a.signif, 64, a.sign, mode);
    ZeroTimes(Real2(QuantumExp(b)));
    TimesPositive(a.signif, Real2(QuantumExp(a)));
    FloatConforms(a, mode);
  }

  lemma FloatConforms(a: F80, mode: Mode)
    requires Normal(a)
    ensures ConformsTo(Value(a), mode, a) && !ReachesInfinity(Value(a), mode)
  {
    hide CorrectlyRounded, Times, Real2;
    WithinRange(a);
    TimesPositive(a.signif, Real2(QuantumExp(a)));
    OnePlace(T64, Real2(MAX_QUANTUM));
    ExactIsCorrect(Value(a), mode, a);
  }

  lemma WithinRange(a: F80)
    requires Normal(a)
    ensures Magnitude(a) <= GreatestFinite()
  {
    hide Real2, Times;
    TimesMonotone(a.signif, T64 - 1, Real2(QuantumExp(a)));
    Real2Monotone(QuantumExp(a), MAX_QUANTUM);
    TimesGrows(T64 - 1, Real2(QuantumExp(a)), Real2(MAX_QUANTUM));
  }

  // ----- the theorem -----

  /**
   Where f80_add does not return what the standard asks for: an exact 2^16384 brought nearer to
   zero, two normal operands that split a tie, and a denormal operand that is lost, or of which
   only half is added, when that matters.
   */
  ghost predicate Misadds(a: F80, b: F80, mode: Mode) {
    || ReachesInfinity(Value(a) + Value(b), mode)
    || (Normal(a) && Normal(b) && SplitsTie(a, b, mode))
    || (&& Normal(a) && b.exp == EXP_DENORMAL && b.signif > 0
        && if a.exp >= 65 then LosesDenormal(a, b, mode) else !AbsorbsHalf(a, b, mode))
  }

  lemma AddOrderedIff(a: F80, b: F80, mode: Mode)
    requires Finite(a) && Finite(b) && a.exp >= b.exp
    ensures ConformsTo(Value(a) + Value(b), mode, AddOrdered(a, b, mode)) <==> !Misadds(a, b, mode)
    ensures Value(a) + Value(b) == 0.0 ==>
            AddOrdered(a, b, mode) == F80(0, 0, if a.sign == b.sign then a.sign else mode == Down && !IsZero(a))
  {
    hide ConformsTo, AddOrdered, Value, ReachesInfinity, LosesDenormal, AbsorbsHalf, WrongDigit;
    if Alignable(a, b) {
      AlignedIff(a, b, mode);
      if Value(a) + Value(b) == 0.0 && a.sign == b.sign { ZeroOperands(a, b, mode); }
    } else if b.signif == 0 {
      ZeroAddsNothing(a, b, mode);
    } else if a.exp - b.exp >= 65 {
      FarIff(a, b, mode);
      if b.exp == EXP_DENORMAL { WrongDigitDenormal(a, b, mode); } else { WrongDigitNormal(a, b, mode); }
    } else {
      MixedIff(a, b, mode);
    }
  }

  lemma ZeroOperands(a: F80, b: F80, mode: Mode)
    requires Alignable(a, b) && a.exp >= b.exp && a.sign == b.sign && Value(a) + Value(b) == 0.0
    ensures AddOrdered(a, b, mode) == F80(0, 0, a.sign)
  {
    hide Magnitude, ShiftRightRound, AddAligned;
    NonnegativeMagnitude(a);
    NonnegativeMagnitude(b);
    ZeroMagnitudeIff(a);
    ZeroMagnitudeIff(b);
    AlignedMagnitudes(a, b, mode);
    BothZero(a, b, Aligned(a, b, mode), mode);
  }

  /**
   f80_add returns what the standard asks for, in every mode and for every two finite operands,
   but exactly there; an exact zero is negative when rounding down, unless both operands are zeroes.
   */
  lemma AddCorrectIff(x: F80, y: F80, mode: Mode)
    requires Finite(x) && Finite(y)
    ensures ConformsTo(Value(x) + Value(y), mode, Add(x, y, mode)) <==>
            !(if x.exp < y.exp then Misadds(y, x, mode) else Misadds(x, y, mode))
    ensures x.sign == y.sign ==> Add(x, y, mode).sign == x.sign
    ensures Value(x) + Value(y) == 0.0 ==>
            Add(x, y, mode) == F80(0, 0, if x.sign == y.sign then x.sign else mode == Down && !IsZero(x))
  {
    hide ConformsTo, AddOrdered, Value, Misadds;
    AddSign(x, y, mode);
    if x.sign == y.sign { SumOfSameSign(x, y); }
    if x.exp < y.exp {
      AddOrderedIff(y, x, mode);
      if Value(x) + Value(y) == 0.0 { BothOrNeither(x, y); }
    } else {
      AddOrderedIff(x, y, mode);
    }
  }

  lemma SumOfSameSign(x: F80, y: F80)
    requires x.sign == y.sign
    ensures Value(x) + Value(y) != 0.0 ==> (x.sign <==> Value(x) + Value(y) < 0.0)
  {
    hide Magnitude;
    NonnegativeMagnitude(x);
    NonnegativeMagnitude(y);
  }

  lemma BothOrNeither(x: F80, y: F80)
    requires Finite(x) && Finite(y) && Value(x) + Value(y) == 0.0
    ensures IsZero(x) <==> IsZero(y)
  {
    hide Magnitude;
    ZeroMagnitudeIff(x);
    ZeroMagnitudeIff(y);
  }

  lemma MixedSumNormalizes(a: F80, b: F80, mode: Mode) returns (s: U128, exp: int)
    requires Mixed(a, b) && a.sign == b.sign
    ensures AddOrdered(a, b, mode) == NormalizeRound(s, exp, a.sign, mode)
    ensures s >= T127 && Unbias(EXP_MIN) <= exp <= Unbias(EXP_MAX)
    ensures Times(High(a.signif) + HalfParts(a, b), Real2(QuantumExp(a) - 64)) == Times(s, Real2(exp - 127))
  {
    hide ShiftRightRound, NormalizeRound, Pow2, HalfParts, Times, Real2;
    var y := High(a.signif) + HalfParts(a, b);
    HalfMagnitude(a, b, mode);
    if y < T128 {
      s, exp := y, Unbias(a.exp);
    } else {
      assert (y - T128) % 2 == 0 by { EvenCarry(a, b); }
      HalvedSum(a, HalfParts(a, b), mode);
      HalvedValue(y / 2, QuantumExp(a));
      s, exp := y / 2, Unbias(a.exp) + 1;
    }
  }

  lemma HalfSum(a: F80, b: F80, mode: Mode)
    requires Mixed(a, b) && a.sign == b.sign
    ensures var x := Times(High(a.signif) + HalfParts(a, b), Real2(QuantumExp(a) - 64));
            Conforms(a.sign, x, mode, AddOrdered(a, b, mode)) && !RoundsUpToNormal(x, a.sign, mode)
  {
    hide Conforms, Times, Real2, NormalizeRound, RoundsTwice, AddOrdered, HalfParts, Clz128;
    var s, exp := MixedSumNormalizes(a, b, mode);
    NormalizeRoundIff(s, exp, a.sign, mode);
    AtMostOneZero(s);
    LeadingBitBounds(s, exp - 63);
    BinadeOrder(MIN_QUANTUM, exp - 63);
  }

  lemma HalfDifference(a: F80, b: F80, mode: Mode)
    requires Mixed(a, b) && a.sign != b.sign
    ensures var x := Times(High(a.signif) - HalfParts(a, b), Real2(QuantumExp(a) - 64));
            Conforms(a.sign, x, mode, AddOrdered(a, b, mode)) <==> !RoundsUpToNormal(x, a.sign, mode)
  {
    hide Conforms, Times, Real2, NormalizeRound, RoundsTwice, AddOrdered, HalfParts, Clz128;
    MixedDifferenceCode(a, b, mode);
    var y: U128 := High(a.signif) - HalfParts(a, b);
    NormalizeRoundIff(y, Unbias(a.exp), a.sign, mode);
    NormalRange(y, Unbias(a.exp));
    if Unbias(a.exp) - Clz128(y) >= Unbias(EXP_MIN) {
      BinadeOrder(MIN_QUANTUM, Unbias(a.exp) - Clz128(y) - 63);
    }
  }

  /** A normal operand and a denormal one at most 64 places down: the code rounds the first plus half the second. */
  lemma AddsHalfDenormal(a: F80, b: F80, mode: Mode)
    requires Mixed(a, b)
    ensures var x := if a.sign == b.sign then Magnitude(a) + Magnitude(b) / 2.0 else Magnitude(a) - Magnitude(b) / 2.0;
            && Signed(a.sign, x) == Value(a) + Value(b) / 2.0
            && (Conforms(a.sign, x, mode, Add(a, b, mode)) <==> !RoundsUpToNormal(x, a.sign, mode))
    ensures Add(b, a, mode) == Add(a, b, mode)
  {
    hide ShiftRightRound, Pack, Pow2, HalfParts, Conforms, Times, Real2, Magnitude, NormalizeRound, RoundsUpToNormal,
      AddOrdered;
    var big, m, c := HalfParts(a, b), High(a.signif), Real2(QuantumExp(a) - 64);
    HalfMagnitude(a, b, mode);
    TimesTwice(big, c);
    TimesLinear(m, big, c);
    if a.sign == b.sign {
      HalfSum(a, b, mode);
    } else {
      HalfDifference(a, b, mode);
    }
  }

  // ----- where it does not -----

  /** One less 2^-65 and a little: the code answers one, and 1 - 2^-64 is nearer. */
  lemma AddMisrounds()
    ensures var x, y := F80(T63, BIAS80, false), F80(T63 + 1, BIAS80 - 65, true);
            && Add(x, y, Nearest) == x
            && !ConformsTo(Value(x) + Value(y), Nearest, Add(x, y, Nearest))
  {
    hide ConformsTo, Value, ReachesInfinity, AddOrdered, ShiftRightRound;
    var x, y := F80(T63, BIAS80, false), F80(T63 + 1, BIAS80 - 65, true);
    FarShift(y.signif, 65, true, Nearest);
    var k := BorrowedDigit(x, y, Nearest);
    AddCorrectIff(x, y, Nearest);
  }

  /** Two zeroes of opposite signs add to plus zero also when rounding down, where the standard asks for minus zero. */
  lemma ZeroesAddToPlusZero(sign: bool, mode: Mode)
    ensures Add(F80(0, 0, sign), F80(0, 0, !sign), mode) == F80(0, 0, false)
  {
    hide Misadds, ConformsTo, Add;
    ZeroValues(F80(0, 0, sign), F80(0, 0, !sign));
    AddCorrectIff(F80(0, 0, sign), F80(0, 0, !sign), mode);
  }

  /** The least normal number plus two units of it: the code adds one, in every mode. */
  lemma DenormalHalved(mode: Mode)
    ensures var x, y := F80(T63, EXP_MIN, false), F80(2, EXP_DENORMAL, false);
            !ConformsTo(Value(x) + Value(y), mode, Add(x, y, mode))
  {
    hide ConformsTo, Value, ReachesInfinity, Add;
    AddCorrectIff(F80(T63, EXP_MIN, false), F80(2, EXP_DENORMAL, false), mode);
  }

  /** The least denormal number is lost to one of exponent 100, although rounding up. */
  lemma DenormalLost()
    ensures var x, y := F80(T63, 100, false), F80(1, EXP_DENORMAL, false);
            && Add(x, y, Up) == x
            && !ConformsTo(Value(x) + Value(y), Up, Add(x, y, Up))
  {
    hide ConformsTo, Value, ReachesInfinity, AddOrdered, ShiftRightRound, Pow2;
    var x, y := F80(T63, 100, false), F80(1, EXP_DENORMAL, false);
    Pow2Monotone(0, 35);
    FarDenormalShift(1, 100, false, Up);
    FarSumCode(x, y, Up);
    HighExact(false, Up);
    AddCorrectIff(x, y, Up);
  }

  /** Chopping, twice 2^16383 is infinity. */
  lemma ChoppedToInfinity()
    ensures var x := F80(T63, EXP_MAX, false);
            !ConformsTo(Value(x) + Value(x), Chop, Add(x, x, Chop))
  {
    hide ConformsTo, Add, Times, Real2;
    var x := F80(T63, EXP_MAX, false);
    TimesTwice(T63, Real2(MAX_QUANTUM));
    AddCorrectIff(x, x, Chop);
  }
}
