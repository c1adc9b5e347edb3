/** Conversions to and from integers and doubles, and rounding to an integral value. */
module Float80Convert {
  import opened PowersOfTwo
  import opened Float80
  import opened Float80Rounding
  import opened Float80Values
  import opened Float80Range
  import opened Float80Addition

  const INT64_MIN := -0x8000_0000_0000_0000
  const INT64_MAX := 0x7fff_ffff_ffff_ffff

  predicate Int64(i: int) { INT64_MIN <= i <= INT64_MAX }

  /** The exponent at which the significand counts whole units. */
  const UNIT_EXP := 63 + BIAS80

  // ----- the model -----

  function FromInt(i: int): F80
    requires Int64(i)
  {
    Normalize(F80(if i < 0 then -i else i, if i == 0 then 0 else UNIT_EXP, i < 0))
  }

  /** A 64-bit pattern read as a signed integer. */
  function AsSigned(x: U64): int {
    if x < T63 then x else x - T64
  }

  function ToInt(f: F80, mode: Mode): int {
    if !Supported(f) || f.exp > UNIT_EXP then INT64_MIN
    else
      var g := ShiftRight(f, UNIT_EXP - f.exp, mode);
      AsSigned(if !g.sign then g.signif else Low64(T64 - g.signif))
  }

  function Round(f: F80, mode: Mode): F80 {
    if !Supported(f) then F80_NAN
    else if f.exp >= UNIT_EXP then f
    else
      var g := ShiftRight(f, UNIT_EXP - f.exp, mode);
      if g.signif == 0 then g.(exp := EXP_DENORMAL) else Normalize(g)
  }

  type Bits52 = x: nat | x < 0x10_0000_0000_0000
  type Exp11 = x: nat | x < 0x800

  /** struct double_bits. */
  datatype Double = Double(signif: Bits52, exp: Exp11, sign: bool)

  const EXP64_MAX := 0x7fe
  const EXP64_SPECIAL := 0x7ff
  const BIAS64 := 0x3ff
  const DOUBLE_NAN := Double(0x8_0000_0000_0000, EXP64_SPECIAL, false)

  function FromDouble(d: Double): F80 {
    var exp := if d.exp == EXP64_SPECIAL then EXP_SPECIAL
               else if d.exp == 0 then (if d.signif == 0 then 0 else 1 - BIAS64 + BIAS80)
               else d.exp - BIAS64 + BIAS80;
    var signif := d.signif * 0x800 + if d.exp != 0 then T63 else 0;
    Normalize(F80(signif, exp, d.sign))
  }

  function ToDouble(f: F80, mode: Mode): Double {
    var newExp := if f.exp == EXP_SPECIAL then EXP64_SPECIAL else Unbias(f.exp) + BIAS64;
    if !Supported(f) then DOUBLE_NAN
    else if newExp > EXP64_MAX && f.exp != EXP_SPECIAL then Double(0, EXP64_SPECIAL, f.sign)
    else
      var g := if newExp <= 0 then ShiftRight(F80(f.signif / 2, f.exp, f.sign), -newExp, mode) else f;
      var exp := if newExp <= 0 then Unbias(g.exp) + BIAS64 else newExp;
      var s := ShiftRightRound(g.signif, 11, g.sign, mode);
      // bit 53 set: rounding carried out of the significand
      if (s / 0x20_0000_0000_0000) % 2 == 1 then
        Double((s / 2) % 0x10_0000_0000_0000, (exp + 1) % 0x800, f.sign)
      else Double(s % 0x10_0000_0000_0000, exp % 0x800, f.sign)
  }

  // ----- shifting up and rounding down again -----

  lemma Clz64Fills(x: U64)
    requires x > 0
    ensures Clz64(x) < 64 && T63 <= Shl(x, Clz64(x)) < T64
  {
    var n := BitLength(x);
    Pow2Words();
    BitLengthBounds(x);
    BitLengthAtMost(x, 64);
    ShlIsMul(x, 64 - n);
    Pow2Add(n - 1, 64 - n);
    Pow2Add(n, 64 - n);
    MulLe(Pow2(n - 1), Pow2(64 - n), x, Pow2(64 - n));
    MulLe(x + 1, Pow2(64 - n), Pow2(n), Pow2(64 - n));
    NextMultiple(x, Pow2(64 - n));
  }

  lemma ShiftBack(x: nat, z: nat, sign: bool, mode: Mode)
    requires Shl(x, z) < T64
    ensures ShiftRightRound(Shl(x, z), z, sign, mode) == x
  {
    hide ShiftRightRound;
    ShlIsMul(x, z);
    ShiftRightRounds(Shl(x, z), z, sign, mode);
    RoundsExactly(Shl(x, z), Pow2(z), x, ShiftRightRound(Shl(x, z), z, sign, mode), sign, mode);
  }

  /** f80_normalize keeps the value of every unnormal number and makes it supported. */
  lemma NormalizeValue(k: U64, exp: Exp15, sign: bool)
    requires k > 0 && exp >= EXP_MIN
    ensures Clz64(k) < 64 && T63 <= Shl(k, Clz64(k)) < T64
    ensures exp > Clz64(k) ==> Normalize(F80(k, exp, sign)) == F80(Shl(k, Clz64(k)), exp - Clz64(k), sign)
    ensures Supported(Normalize(F80(k, exp, sign)))
    ensures Magnitude(Normalize(F80(k, exp, sign))) == Times(k, Real2(exp - BIAS80 - 63))
  {
    hide Clz64, Times, Real2, Shl;
    var z := Clz64(k);
    Clz64Fills(k);
    if exp > z {
      ShlIsMul(k, z);
      TimesShift(k, z, exp - z - BIAS80 - 63);
    } else {
      ShlHalves(k, exp - EXP_MIN, z);
      ShlIsMul(k, exp - EXP_MIN);
      TimesShift(k, exp - EXP_MIN, MIN_QUANTUM);
    }
  }

  // ----- integers -----

  /** f80_from_int is exact and f80_to_int undoes it, for every 64-bit integer and every mode. */
  lemma IntRoundTrip(i: int, mode: Mode)
    requires Int64(i)
    ensures ToInt(FromInt(i), mode) == i
    ensures Value(FromInt(i)) == i as real && Finite(FromInt(i)) && FromInt(i).sign == (i < 0)
  {
    if i == 0 {
      assert ShiftRightRound(0, UNIT_EXP, false, mode) == 0;
    } else {
      hide Clz64, Real2, Shl, ShiftRightRound, Normalize;
      var k := if i < 0 then -i else i;
      NormalizeValue(k, UNIT_EXP, i < 0);
      ShiftBack(k, Clz64(k), i < 0, mode);
      assert Real2(0) == 1.0 by { UnitReal(); }
    }
  }

  lemma UnitReal()
    ensures Real2(0) == 1.0
  {
  }

  // ----- rounding to an integral value -----

  /** `k` is the magnitude of `f` rounded to a whole number the way `mode` asks. */
  ghost predicate RoundsToInteger(f: F80, mode: Mode, k: nat) {
    RoundsOnGrid(Magnitude(f), 1.0, k as real, k % 2 == 0, f.sign, mode)
  }

  lemma UnitGrid(k: nat, n: int)
    requires n >= 0
    ensures Times(Pow2(n), Real2(-n)) == 1.0
    ensures Times(k * Pow2(n), Real2(-n)) == k as real
  {
    hide Pow2;
    TimesShift(k, n, -n);
    UnitReal();
  }

  lemma NormalShiftRounds(f: F80, mode: Mode)
    requires Normal(f) && f.exp < UNIT_EXP
    ensures RoundsToInteger(f, mode, ShiftRightRound(f.signif, UNIT_EXP - f.exp, f.sign, mode))
  {
    hide ShiftRightRound, Real2, Times, Pow2, RoundsToMultiple, RoundsOnGrid;
    var n: int := UNIT_EXP - f.exp;
    var k := ShiftRightRound(f.signif, n, f.sign, mode);
    ShiftRightRounds(f.signif, n, f.sign, mode);
    ScaleRounding(f.signif, Pow2(n), k * Pow2(n), k % 2 == 0, f.sign, mode, Real2(-n));
    UnitGrid(k, n);
  }

  lemma DenormalShiftRounds(f: F80, mode: Mode)
    requires Finite(f) && f.exp == EXP_DENORMAL
    ensures RoundsToInteger(f, mode, ShiftRightRound(f.signif, UNIT_EXP - f.exp, f.sign, mode))
  {
    hide Real2, Times, Pow2, Shr, LowBits;
    FinerBelowBinade(f.signif, MIN_QUANTUM, -64);
    Pow2Words();
    TimesShift(1, 63, -64);
    assert Real2(-1) == 0.5 by { HalfReal(); }
    if f.signif > 0 {
      TimesPositive(f.signif, Real2(MIN_QUANTUM));
    } else {
      assert Magnitude(f) == 0.0 by { ZeroTimes(Real2(MIN_QUANTUM)); }
    }
  }

  lemma HalfReal()
    ensures Real2(-1) == 0.5
  {
  }

  lemma ShiftBelow(f: F80, n: nat, mode: Mode)
    requires n >= 1
    ensures ShiftRightRound(f.signif, n, f.sign, mode) <= T63
  {
  }

  /** f80_round gives the integral value the mode asks for, for every finite number. */
  lemma RoundCorrect(f: F80, mode: Mode) returns (k: nat)
    requires Finite(f)
    ensures RoundsToInteger(f, mode, k)
    ensures Finite(Round(f, mode)) && Round(f, mode).sign == f.sign && Magnitude(Round(f, mode)) == k as real
  {
    hide ShiftRightRound, Real2, Times, Normalize, Clz64, Shl;
    if f.exp >= UNIT_EXP {
      k := CoarserOnGrid(f.signif, QuantumExp(f), 0);
      UnitTimes(k);
    } else {
      k := ShiftRightRound(f.signif, UNIT_EXP - f.exp, f.sign, mode);
      ShiftBelow(f, UNIT_EXP - f.exp, mode);
      if f.exp == EXP_DENORMAL {
        DenormalShiftRounds(f, mode);
      } else {
        NormalShiftRounds(f, mode);
      }
      UnitTimes(k);
      if k > 0 {
        NormalizeValue(k, UNIT_EXP, f.sign);
      } else {
        ZeroTimes(Real2(MIN_QUANTUM));
      }
    }
  }

  lemma UnitTimes(k: int)
    ensures Times(k, Real2(0)) == k as real
  {
  }

  /** Rounding twice changes nothing, whatever the operand. */
  lemma RoundIdempotent(f: F80, mode: Mode)
    ensures Round(Round(f, mode), mode) == Round(f, mode)
  {
    hide ShiftRightRound, Normalize, Clz64, Shl, Magnitude;
    if Supported(f) && f.exp < UNIT_EXP {
      var k := ShiftRightRound(f.signif, UNIT_EXP - f.exp, f.sign, mode);
      ShiftBelow(f, UNIT_EXP - f.exp, mode);
      if k > 0 {
        NormalizeValue(k, UNIT_EXP, f.sign);
        ShiftBack(k, Clz64(k), f.sign, mode);
      } else {
        assert ShiftRightRound(0, UNIT_EXP, f.sign, mode) == 0 by { ZeroShift(UNIT_EXP, f.sign, mode); }
      }
    }
  }

  /** Beyond 2^63 and below 2^64 in magnitude. */
  predicate WrapsAround(f: F80) {
    f.exp == UNIT_EXP && f.signif > T63
  }

  /**
   f80_to_int returns the correctly rounded integer of a finite number if and only if 64 bits hold it. Of the
   others it returns the indefinite integer, if and only if it does not wrap around.
   */
  lemma ToIntCorrectIff(f: F80, mode: Mode) returns (k: nat)
    requires Finite(f)
    ensures RoundsToInteger(f, mode, k)
    ensures ToInt(f, mode) == (if f.sign then 0 - k else k) <==> k <= if f.sign then T63 else INT64_MAX
    ensures k > (if f.sign then T63 else INT64_MAX) ==> (ToInt(f, mode) == INT64_MIN <==> !WrapsAround(f))
    ensures f.exp > UNIT_EXP ==> ToInt(f, mode) == INT64_MIN
  {
    hide Real2, Times;
    if f.exp > UNIT_EXP {
      k := CoarserOnGrid(f.signif, QuantumExp(f), 0);
      UnitTimes(k);
      BeyondWords(f, k);
    } else if f.exp == UNIT_EXP {
      k := f.signif;
      UnitTimes(k);
      assert ShiftRightRound(f.signif, 0, f.sign, mode) == f.signif;
    } else {
      hide ShiftRightRound;
      k := ShiftRightRound(f.signif, UNIT_EXP - f.exp, f.sign, mode);
      ShiftBelow(f, UNIT_EXP - f.exp, mode);
      if f.exp == EXP_DENORMAL {
        DenormalShiftRounds(f, mode);
      } else {
        NormalShiftRounds(f, mode);
      }
    }
  }

  /** 2^63 + 1 becomes a negative number, and not the indefinite one. */
  lemma ToIntWraps(mode: Mode)
    ensures ToInt(F80(T63 + 1, UNIT_EXP, false), mode) == INT64_MIN + 1
  {
    assert ShiftRightRound(T63 + 1, 0, false, mode) == T63 + 1;
  }

  lemma BeyondWords(f: F80, k: nat)
    requires Finite(f) && f.exp > UNIT_EXP && Magnitude(f) == k as real
    ensures k >= T64
  {
    hide Real2, Times;
    var q := Real2(QuantumExp(f));
    Real2Monotone(1, QuantumExp(f));
    assert Real2(1) == 2.0 by { TwoReal(); }
    TimesMonotone(T63, f.signif, q);
    AtLeastTwice(q);
  }

  lemma TwoReal()
    ensures Real2(1) == 2.0
  {
  }

  lemma AtLeastTwice(q: real)
    requires q >= 2.0
    ensures Times(T63, q) >= T64 as real
  {
    assert T63 as real * (q - 2.0) >= 0.0;
  }

  // ----- doubles -----

  /** Every double survives the trip through 80 bits bit for bit, in every mode. */
  lemma DoubleRoundTrip(d: Double, mode: Mode)
    ensures ToDouble(FromDouble(d), mode) == d
  {
    hide ToDouble, FromDouble;
    if d.exp != 0 {
      WideDouble(d, mode);
    } else if d.signif != 0 {
      DenormalDouble(d, mode);
    } else {
      ZeroDouble(d, mode);
    }
  }

  lemma ZeroDouble(d: Double, mode: Mode)
    requires d.exp == 0 && d.signif == 0
    ensures ToDouble(FromDouble(d), mode) == d
  {
    hide ShiftRightRound, Shl, Clz64;
    ZeroShift(BIAS80 - BIAS64, d.sign, mode);
    ZeroShl(11);
    ShiftBack(0, 11, d.sign, mode);
  }

  lemma ElevenUp(m: nat)
    ensures Shl(m, 11) == m * 0x800
  {
    ShlIsMul(m, 11);
    assert Pow2(11) == 0x800;
  }

  lemma WideDouble(d: Double, mode: Mode)
    requires d.exp != 0
    ensures ToDouble(FromDouble(d), mode) == d
  {
    hide ShiftRightRound, Pow2, Clz64, Shl;
    var full := d.signif + 0x10_0000_0000_0000;
    ElevenUp(full);
    FullWidth(full * 0x800);
    ShiftBack(full, 11, d.sign, mode);
    assert full % 0x10_0000_0000_0000 == d.signif && full / 0x20_0000_0000_0000 == 0;
  }

  lemma FullWidth(s: U64)
    requires s >= T63
    ensures Clz64(s) == 0 && Shl(s, 0) == s
  {
    Pow2Words();
    BitLengthAtLeast(s, 63);
  }

  lemma DenormalDouble(d: Double, mode: Mode)
    requires d.exp == 0 && d.signif != 0
    ensures ToDouble(FromDouble(d), mode) == d
  {
    hide ShiftRightRound, Pow2, Normalize, Shl, Clz64, Magnitude, ToDouble;
    var s := d.signif * 0x800;
    var z := Clz64(s);
    NormalizeValue(s, 1 - BIAS64 + BIAS80, d.sign);
    assert z >= 1 by { LeadingZero(s); }
    HalfShl(s, z);
    ShiftBack(s, z - 1, d.sign, mode);
    ElevenUp(d.signif);
    ShiftBack(d.signif, 11, d.sign, mode);
    BackFromDenormal(d, Shl(s, z), z, mode);
  }

  /** A significand shifted up by `z` and its exponent down by `z` come back in two exact shifts. */
  lemma BackFromDenormal(d: Double, up: U64, z: nat, mode: Mode)
    requires d.exp == 0 && 1 <= z < 64 && up >= T63
    requires ShiftRightRound(up / 2, z - 1, d.sign, mode) == d.signif * 0x800
    requires ShiftRightRound(d.signif * 0x800, 11, d.sign, mode) == d.signif
    ensures ToDouble(F80(up, 1 - BIAS64 + BIAS80 - z, d.sign), mode) == d
  {
    hide ShiftRightRound;
  }

  lemma LeadingZero(s: U64)
    requires s < T63
    ensures Clz64(s) >= 1
  {
    Pow2Words();
    BitLengthAtMost(s, 63);
  }

  lemma HalfShl(s: nat, z: nat)
    requires z >= 1
    ensures Shl(s, z) / 2 == Shl(s, z - 1)
  {
  }
}
