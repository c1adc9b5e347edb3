/** u128_normalize_round on every value, against what IEEE 754-2008 asks for: overflow and underflow included. */
module Float80Range {
  import opened PowersOfTwo
  import opened Float80
  import opened Float80Rounding
  import opened Float80Values
  import opened Float80Normalize

  // ----- what the standard asks for -----

  /** A directed mode that brings a number of this sign nearer to zero. */
  predicate TowardZero(sign: bool, mode: Mode) {
    mode != Nearest && !RoundsAway(sign, mode)
  }

  /** Section 7.4 of IEEE 754-2008: the result for a magnitude beyond the greatest finite number. */
  ghost function OverflowResult(sign: bool, x: real, mode: Mode): F80 {
    if RoundsAway(sign, mode) || (mode == Nearest && 2.0 * (x - GreatestFinite()) >= Real2(MAX_QUANTUM))
    then F80_INF.(sign := sign)
    else F80(T64 - 1, EXP_MAX, sign)
  }

  /** `r` is what the standard asks for when the exact result has this sign and magnitude. */
  ghost predicate Conforms(sign: bool, x: real, mode: Mode, r: F80) {
    if x <= GreatestFinite() then CorrectlyRounded(Signed(sign, x), mode, r) else r == OverflowResult(sign, x, mode)
  }

  /** The same for a signed exact result. */
  ghost predicate ConformsTo(v: real, mode: Mode, r: F80) {
    Conforms(v < 0.0, if v < 0.0 then -v else v, mode, r)
  }

  lemma ConformsSigned(sign: bool, x: real, mode: Mode, r: F80)
    requires x >= 0.0
    ensures ConformsTo(Signed(sign, x), mode, r) <==> Conforms(sign, x, mode, r)
  {
    hide CorrectlyRounded, OverflowResult, GreatestFinite;
    PositiveRange();
  }

  lemma PositiveRange()
    ensures GreatestFinite() > 0.0
  {
    TimesPositive(T64 - 1, Real2(MAX_QUANTUM));
  }

  // ----- the floats of a binade -----

  /** The multiples of 2^e that are floats of a normal binade, or below the least normal number. */
  predicate OnBinade(k: int, e: int) {
    MIN_QUANTUM <= e <= MAX_QUANTUM && (if e == MIN_QUANTUM then 0 else T63) <= k <= T64
  }

  /** The float k * 2^e, or infinity just past the greatest finite one. */
  function GridFloat(k: U128, e: int, sign: bool): F80
    requires OnBinade(k, e)
  {
    if k < T63 then F80(k, EXP_DENORMAL, sign) else Pack(k, e + 63 + BIAS80, sign)
  }

  lemma GridFloatValue(k: U128, e: int, sign: bool)
    requires OnBinade(k, e)
    ensures var r := GridFloat(k, e, sign);
            && r.sign == sign && (Finite(r) <==> !(k == T64 && e == MAX_QUANTUM))
            && Magnitude(r) == Times(k, Real2(e))
            && (k % 2 == 0 <==> r.signif % 2 == 0)
  {
    hide Times, Real2;
    if k >= T63 {
      PackValue(k, e + 63 + BIAS80, sign);
    }
  }

  /** `x` lies in the binade, or below the least normal number. */
  ghost predicate InBinade(x: real, e: int) {
    && MIN_QUANTUM <= e <= MAX_QUANTUM
    && x < Times(T64, Real2(e))
    && if e == MIN_QUANTUM then x > 0.0 else x >= Times(T63, Real2(e))
  }

  lemma InBinadePositive(x: real, e: int)
    requires InBinade(x, e)
    ensures x > 0.0
  {
    hide Times, Real2;
    TimesPositive(T63, Real2(e));
  }

  /** The neighbours on the grid are floats too, so a correct rounding rounds on the grid. */
  lemma GridRoundingNeeded(x: real, e: int, k: U128, mode: Mode)
    requires InBinade(x, e) && OnBinade(k, e) && x <= GreatestFinite()
    requires CorrectlyRounded(x, mode, GridFloat(k, e, false))
    ensures RoundsOnGrid(x, Real2(e), Times(k, Real2(e)), k % 2 == 0, false, mode)
  {
    hide Times, Real2, GridFloat, Magnitude;
    var q, r := Real2(e), GridFloat(k, e, false);
    GridFloatValue(k, e, false);
    OnePlace(k, q);
    ZeroTimes(q);
    if OnBinade(k + 1, e) {
      GridFloatValue(k + 1, e, false);
      assert Value(GridFloat(k + 1, e, false)) == Times(k, q) + q;
    }
    if OnBinade(k - 1, e) {
      GridFloatValue(k - 1, e, false);
      assert Value(GridFloat(k - 1, e, false)) == Times(k, q) - q;
    }
    assert Value(r) == Times(k, q);
    InBinadePositive(x, e);
  }

  lemma ZeroTimes(c: real)
    ensures Times(0, c) == 0.0
  {
  }

  lemma FiniteGridIff(x: real, e: int, k: U128, sign: bool, mode: Mode)
    requires InBinade(x, e) && OnBinade(k, e) && x <= GreatestFinite()
    ensures CorrectlyRounded(Signed(sign, x), mode, GridFloat(k, e, sign)) <==>
            RoundsOnGrid(x, Real2(e), Times(k, Real2(e)), k % 2 == 0, sign, mode)
  {
    hide Times, Real2, GridFloat, Magnitude, CorrectlyRounded, GreatestFinite;
    var r, m := GridFloat(k, e, false), if sign then Flip(mode) else mode;
    GridFloatValue(k, e, false);
    GridFloatSign(k, e, sign);
    InBinadePositive(x, e);
    if CorrectlyRounded(Signed(sign, x), mode, GridFloat(k, e, sign)) {
      if sign { MirrorRounded(x, m, r); }
      GridRoundingNeeded(x, e, k, m);
    }
    if RoundsOnGrid(x, Real2(e), Times(k, Real2(e)), k % 2 == 0, sign, mode) {
      if e == MAX_QUANTUM { NoCarryToInfinity(x, k, sign, mode); }
      GridRoundingIsCorrect(x, e, k, m, r);
      if sign { MirrorRounded(-x, mode, GridFloat(k, e, true)); }
    }
  }

  lemma GridFloatSign(k: U128, e: int, sign: bool)
    requires OnBinade(k, e)
    ensures GridFloat(k, e, sign) == if sign then Neg(GridFloat(k, e, false)) else GridFloat(k, e, false)
  {
  }

  lemma TopBinade(x: real, e: int)
    requires InBinade(x, e) && x > GreatestFinite()
    ensures e == MAX_QUANTUM
  {
    hide Times, Real2;
    if e < MAX_QUANTUM {
      CarryKeepsValue(e);
      BinadeOrder(e + 1, MAX_QUANTUM);
      TimesMonotone(T63, T64 - 1, Real2(MAX_QUANTUM));
    }
  }

  /** Beyond the greatest finite number the grid goes on for one place, and its last point is infinity. */
  lemma OverflowGridIff(x: real, k: U128, sign: bool, mode: Mode)
    requires InBinade(x, MAX_QUANTUM) && OnBinade(k, MAX_QUANTUM) && x > GreatestFinite()
    ensures GridFloat(k, MAX_QUANTUM, sign) == OverflowResult(sign, x, mode) <==>
            RoundsOnGrid(x, Real2(MAX_QUANTUM), Times(k, Real2(MAX_QUANTUM)), k % 2 == 0, sign, mode)
  {
    hide Times, Real2;
    var q := Real2(MAX_QUANTUM);
    OnePlace(T64 - 1, q);
    OnePlace(T64 - 2, q);
    TimesMonotone(k, T64 - 2, q);
  }

  /** On the grid of the binade of `x`: conforming to the standard is rounding on that grid. */
  lemma OnGridIff(x: real, e: int, k: U128, sign: bool, mode: Mode)
    requires InBinade(x, e) && OnBinade(k, e)
    ensures Conforms(sign, x, mode, GridFloat(k, e, sign)) <==>
            RoundsOnGrid(x, Real2(e), Times(k, Real2(e)), k % 2 == 0, sign, mode)
  {
    hide Times, Real2, GridFloat, CorrectlyRounded, GreatestFinite, OverflowResult, RoundsOnGrid, InBinade;
    if x <= GreatestFinite() {
      FiniteGridIff(x, e, k, sign, mode);
    } else {
      TopBinade(x, e);
      OverflowGridIff(x, k, sign, mode);
    }
  }

  /** The same for a packed digit of a normal binade. */
  lemma PackedOnGridIff(x: real, e: int, k: U128, sign: bool, mode: Mode)
    requires MIN_QUANTUM <= e <= MAX_QUANTUM && T63 <= k <= T64
    requires Times(T63, Real2(e)) <= x < Times(T63, Real2(e + 1))
    ensures Conforms(sign, x, mode, Pack(k, e + 63 + BIAS80, sign)) <==>
            RoundsOnGrid(x, Real2(e), Times(k, Real2(e)), k % 2 == 0, sign, mode)
  {
    hide Times, Real2, Conforms, RoundsOnGrid, Pack;
    CarryKeepsValue(e);
    TimesPositive(T63, Real2(e));
    OnGridIff(x, e, k, sign, mode);
  }

  /** The same for an exact magnitude of 128 bits. */
  lemma DigitIff(big: U128, e: int, k: U128, sign: bool, mode: Mode)
    requires MIN_QUANTUM <= e <= MAX_QUANTUM && T63 <= k <= T64 && big >= T127
    ensures Conforms(sign, Times(big, Real2(e - 64)), mode, Pack(k, e + 63 + BIAS80, sign)) <==>
            RoundsToMultiple(big, T64, High(k), k % 2 == 0, sign, mode)
  {
    hide Times, Real2, Conforms, RoundsOnGrid, Pack, RoundsToMultiple;
    LeadingBitBounds(big, e);
    RoundsOnResultGrid(big, k, e, sign, mode);
    PackedOnGridIff(Times(big, Real2(e - 64)), e, k, sign, mode);
  }

  /** A float between the exact magnitude and the result is a better result. */
  lemma Overtaken(sign: bool, x: real, mode: Mode, r: F80, g: F80)
    requires 0.0 < x <= GreatestFinite() && Finite(g) && r.sign == sign && g.sign == sign
    requires Magnitude(r) < Magnitude(g) <= x || x <= Magnitude(g) < Magnitude(r)
    ensures !Conforms(sign, x, mode, r)
  {
    hide Magnitude, GreatestFinite;
  }

  // ----- in the normal range -----

  lemma NormalConforms(signif: U128, exp: int, sign: bool, mode: Mode)
    requires signif > 0 && Unbias(EXP_MIN) <= exp - Clz128(signif) <= Unbias(EXP_MAX)
    ensures Conforms(sign, Times(signif, Real2(exp - 127)), mode, NormalizeRound(signif, exp, sign, mode))
  {
    hide NormalizeRound, Clz128, Times, Real2, Conforms, ShiftRightRound, LeastNormal, GreatestFinite, Pack;
    NormalRange(signif, exp);
    NormalBranch(signif, exp, sign, mode);
    var big: U128 := Shl(signif, Clz128(signif));
    UpperHalf(big, sign, mode);
    DigitIff(big, exp - Clz128(signif) - 63, ShiftRightRound(big, 64, sign, mode), sign, mode);
  }

  // ----- above it -----

  /** A magnitude from 2^16384 on, and whatever significand stands for it. */
  lemma OverflowConformsIff(signif: U128, exp: int, sign: bool, mode: Mode, x: real)
    requires exp - Clz128(signif) > Unbias(EXP_MAX) && Times(T63, Real2(exp - Clz128(signif) - 63)) <= x
    ensures Conforms(sign, x, mode, NormalizeRound(signif, exp, sign, mode)) <==>
            !(signif == T127 && TowardZero(sign, mode))
  {
    hide Clz128, Times, Real2, CorrectlyRounded, LeastNormal, ShiftRightRound, Shl, RoundToHigh;
    var q := Real2(MAX_QUANTUM);
    BinadeOrder(MAX_QUANTUM + 1, exp - Clz128(signif) - 63);
    CarryKeepsValue(MAX_QUANTUM);
    OnePlace(T64 - 1, q);
  }

  // ----- below it -----

  /** A magnitude below the least normal number that rounds up to it. */
  ghost predicate RoundsUpToNormal(x: real, sign: bool, mode: Mode) {
    && x < LeastNormal()
    && if mode == Nearest then 2.0 * (LeastNormal() - x) <= Real2(MIN_QUANTUM)
       else RoundsAway(sign, mode) && LeastNormal() - x < Real2(MIN_QUANTUM)
  }

  lemma RoundsUpIff(x: real, k: nat, sign: bool, mode: Mode)
    requires k <= T63 && x < LeastNormal()
    requires RoundsOnGrid(x, Real2(MIN_QUANTUM), Times(k, Real2(MIN_QUANTUM)), k % 2 == 0, sign, mode)
    ensures k == T63 <==> RoundsUpToNormal(x, sign, mode)
  {
    hide Times, Real2;
    OnePlace(T63 - 1, Real2(MIN_QUANTUM));
    OnePlace(T63 - 2, Real2(MIN_QUANTUM));
    TimesMonotone(k, T63 - 2, Real2(MIN_QUANTUM));
  }

  lemma LeadBelow(s: U128)
    requires 0 < s < T127
    ensures Clz128(s) >= 1
  {
    Pow2DoubleWords();
    BitLengthAtMost(s, 127);
  }

  /** The same for a magnitude counted in parts of the least unit. */
  lemma RoundsUpScaled(s: nat, sign: bool, mode: Mode)
    ensures RoundsUpToNormal(Times(s, Real2(MIN_QUANTUM - 64)), sign, mode) <==>
            && s < T127
            && if mode == Nearest then T127 - s <= T63 else RoundsAway(sign, mode) && T127 - s < T64
  {
    hide Times, Real2;
    var c := Real2(MIN_QUANTUM - 64);
    Pow2Words();
    TimesShift(T63, 64, MIN_QUANTUM - 64);
    assert T63 * Pow2(64) == T127;
    TimesMonotone(s, T127, c);
    TimesLinear(T127, s, c);
    TimesTwice(T127 - s, c);
    TimesMonotone(2 * (T127 - s), T64, c);
    TimesMonotone(T127 - s, T64, c);
  }

  /**
   The digit kept below the normal range, with the exponent of a denormal number: it must be the
   rounded one, and must not be the least normal number, whose significand needs another exponent.
   */
  lemma BelowNormalIff(x: real, k: U128, sign: bool, mode: Mode)
    requires 0.0 < x < LeastNormal() && k <= T63
    ensures Conforms(sign, x, mode, Pack(k, EXP_DENORMAL, sign)) <==>
            && !RoundsUpToNormal(x, sign, mode)
            && RoundsOnGrid(x, Real2(MIN_QUANTUM), Times(k, Real2(MIN_QUANTUM)), k % 2 == 0, sign, mode)
  {
    hide Times, Real2, RoundsOnGrid, RoundsUpToNormal;
    assert InBinade(x, MIN_QUANTUM) && x <= GreatestFinite() by { BelowEverything(x); }
    if k < T63 {
      OnGridIff(x, MIN_QUANTUM, k, sign, mode);
    }
    if RoundsOnGrid(x, Real2(MIN_QUANTUM), Times(k, Real2(MIN_QUANTUM)), k % 2 == 0, sign, mode) {
      RoundsUpIff(x, k, sign, mode);
    }
  }

  lemma BelowEverything(x: real)
    requires 0.0 < x < LeastNormal()
    ensures x < Times(T64, Real2(MIN_QUANTUM)) && x <= GreatestFinite()
  {
    hide Times, Real2;
    TimesMonotone(T63, T64, Real2(MIN_QUANTUM));
    BinadeOrder(MIN_QUANTUM, MAX_QUANTUM);
    TimesMonotone(T63, T64 - 1, Real2(MAX_QUANTUM));
  }

  // ----- rounding twice -----

  /**
   The significand is shifted right with rounding by `n` places and its upper half rounded again. The second rounding
   goes wrong when the first has lost everything, or has landed on a tie and hidden on which side of it the value lies.
   */
  predicate RoundsTwice(signif: U128, n: nat, sign: bool, mode: Mode) {
    var j := ShiftRightRound(signif, n, sign, mode);
    || (RoundsAway(sign, mode) && j == 0)
    || (&& mode == Nearest && j % 0x1_0000_0000_0000_0000 == T63
        && if (j / 0x1_0000_0000_0000_0000) % 2 == 0 then j * Pow2(n) < signif else signif < j * Pow2(n))
  }

  /** The linear core: `jp` is j * p, and `up` is p times what the second rounding takes off j. */
  lemma LinearTwice(s: int, p: int, j: nat, k: nat, jp: int, up: int, mp: int, sign: bool, mode: Mode)
    requires p > 0 && RoundsToMultiple(s, p, jp, j % 2 == 0, sign, mode)
    requires RoundsToMultiple(j, T64, High(k), k % 2 == 0, sign, mode)
    requires jp == mp + up
    requires var u := j - High(k);
      && (u >= 1 ==> up >= p) && (u <= -1 ==> up <= -p) && (u == 0 ==> up == 0)
      && (u < T64 ==> up <= 0x1_0000_0000_0000_0000 * p - p)
      && (u > -T64 ==> up >= p - 0x1_0000_0000_0000_0000 * p)
      && (u < T63 ==> up <= 0x8000_0000_0000_0000 * p - p)
      && (u > -T63 ==> up >= p - 0x8000_0000_0000_0000 * p)
      && (u == T63 ==> up == 0x8000_0000_0000_0000 * p)
      && (u == -T63 ==> up == -0x8000_0000_0000_0000 * p)
    ensures RoundsToMultiple(s, 0x1_0000_0000_0000_0000 * p, mp, k % 2 == 0, sign, mode) <==>
            !(mode == Nearest && ((j - High(k) == T63 && jp < s) || (j - High(k) == -T63 && s < jp)))
  {
  }

  lemma TieSides(j: nat, k: nat, sign: bool)
    requires RoundsToMultiple(j, T64, High(k), k % 2 == 0, sign, Nearest)
    ensures j - High(k) == T63 <==> j % 0x1_0000_0000_0000_0000 == T63 && (j / 0x1_0000_0000_0000_0000) % 2 == 0
    ensures j - High(k) == -T63 <==> j % 0x1_0000_0000_0000_0000 == T63 && (j / 0x1_0000_0000_0000_0000) % 2 == 1
  {
    var h, low := j / 0x1_0000_0000_0000_0000, j % 0x1_0000_0000_0000_0000;
    assert j == High(h) + low;
    assert k == h || k == h + 1;
  }

  lemma TwiceRoundedIff(s: U128, n: nat, sign: bool, mode: Mode)
    requires s > 0
    ensures var k := ShiftRightRound(ShiftRightRound(s, n, sign, mode), 64, sign, mode);
            RoundsToMultiple(s, 0x1_0000_0000_0000_0000 * Pow2(n), High(k) * Pow2(n), k % 2 == 0, sign, mode) <==>
            !RoundsTwice(s, n, sign, mode)
  {
    if n <= 65 {
      NearTwiceIff(s, n, sign, mode);
    } else {
      FarTwiceIff(s, n, sign, mode);
    }
  }

  lemma NearTwiceIff(s: U128, n: nat, sign: bool, mode: Mode)
    requires s > 0 && n <= 65
    ensures var k := ShiftRightRound(ShiftRightRound(s, n, sign, mode), 64, sign, mode);
            RoundsToMultiple(s, 0x1_0000_0000_0000_0000 * Pow2(n), High(k) * Pow2(n), k % 2 == 0, sign, mode) <==>
            !RoundsTwice(s, n, sign, mode)
  {
    hide ShiftRightRound, Pow2;
    var j, p := ShiftRightRound(s, n, sign, mode), Pow2(n);
    var k := ShiftRightRound(j, 64, sign, mode);
    ShiftRightRounds(s, n, sign, mode);
    ShiftRightRounds(j, 64, sign, mode);
    RoundsToHigh(j, k, sign, mode);
    SubTimes(j, High(k), p);
    ScaledBounds(j - High(k), p);
    ScaledBounds(High(k) - j, p);
    SubTimes(High(k), j, p);
    LinearTwice(s, p, j, k, j * p, (j - High(k)) * p, High(k) * p, sign, mode);
    if mode == Nearest { TieSides(j, k, sign); }
    assert RoundsAway(sign, mode) ==> j > 0;
  }

  lemma FarTwiceIff(s: U128, n: nat, sign: bool, mode: Mode)
    requires s > 0 && n >= 66
    ensures var k := ShiftRightRound(ShiftRightRound(s, n, sign, mode), 64, sign, mode);
            RoundsToMultiple(s, 0x1_0000_0000_0000_0000 * Pow2(n), High(k) * Pow2(n), k % 2 == 0, sign, mode) <==>
            !RoundsTwice(s, n, sign, mode)
  {
    hide ShiftRightRound, Pow2;
    var j, p := ShiftRightRound(s, n, sign, mode), Pow2(n);
    var k := ShiftRightRound(j, 64, sign, mode);
    FarShiftSmall(s, n, sign, mode);
    ShiftRightRounds(j, 64, sign, mode);
    RoundsToHigh(j, k, sign, mode);
    Pow2Words();
    TwoMorePlaces();
    Pow2Monotone(66, n);
    assert k == if RoundsAway(sign, mode) && j > 0 then 1 else 0;
  }

  lemma FarShiftSmall(s: U128, n: nat, sign: bool, mode: Mode)
    requires n >= 66
    ensures ShiftRightRound(s, n, sign, mode) <= 0x4000_0000_0000_0000
  {
    hide Shr, LowBits, Pow2;
    if n <= 127 {
      ShiftRightRoundCases(s, n, sign, mode);
      SplitBits(s, n);
      TwoMorePlaces();
      Pow2Monotone(66, n);
      if Shr(s, n) >= 0x4000_0000_0000_0000 {
        MulLe(0x4000_0000_0000_0000, 0x4_0000_0000_0000_0000, Shr(s, n), Pow2(n));
      }
    }
  }

  // ----- u128_normalize_round -----

  lemma DenormalBranch(signif: U128, exp: int, sign: bool, mode: Mode)
    requires signif > 0 && exp >= Unbias(EXP_MIN) && exp - Clz128(signif) < Unbias(EXP_MIN)
    ensures Shl(signif, exp - Unbias(EXP_MIN)) < T127
    ensures NormalizeRound(signif, exp, sign, mode) ==
            RoundToHigh(Shl(signif, exp - Unbias(EXP_MIN)), EXP_DENORMAL, sign, mode)
  {
    hide RoundToHigh;
    var n := exp - Unbias(EXP_MIN);
    ClzFills(signif);
    ShlHalves(signif, n, Clz128(signif));
    if n == 0 {
      assert ShiftRightRound(signif, 0, sign, mode) == signif;
    }
  }

  lemma {:induction false} ShlHalves(x: nat, m: nat, n: nat)
    requires m < n
    ensures 2 * Shl(x, m) <= Shl(x, n)
    decreases n
  {
    if m < n - 1 {
      ShlHalves(x, m, n - 1);
    }
  }

  lemma BelowNormalLead(signif: U128, exp: int)
    requires signif > 0 && exp - Clz128(signif) < Unbias(EXP_MIN)
    ensures 0.0 < Times(signif, Real2(exp - 127)) < LeastNormal()
  {
    hide Times, Real2, Clz128;
    TimesPositive(signif, Real2(exp - 127));
    NormalRange(signif, exp);
    BinadeOrder(exp - Clz128(signif) - 62, MIN_QUANTUM);
  }

  /** With an exponent in the normal range there is one rounding. */
  lemma DenormalConformsIff(signif: U128, exp: int, sign: bool, mode: Mode)
    requires signif > 0 && exp >= Unbias(EXP_MIN) && exp - Clz128(signif) < Unbias(EXP_MIN)
    ensures Conforms(sign, Times(signif, Real2(exp - 127)), mode, NormalizeRound(signif, exp, sign, mode)) <==>
            !RoundsUpToNormal(Times(signif, Real2(exp - 127)), sign, mode)
  {
    hide Times, Real2, Clz128, NormalizeRound, ShiftRightRound, Conforms, RoundsUpToNormal, RoundsOnGrid, Pack, Shl;
    var x, n := Times(signif, Real2(exp - 127)), exp - Unbias(EXP_MIN);
    DenormalBranch(signif, exp, sign, mode);
    BelowNormalLead(signif, exp);
    var s: U128 := Shl(signif, n);
    var k := ShiftRightRound(s, 64, sign, mode);
    ShlIsMul(signif, n);
    TimesShift(signif, n, MIN_QUANTUM - 64);
    ShiftRightRounds(s, 64, sign, mode);
    RoundsToHigh(s, k, sign, mode);
    AtMostNormal(s, k, sign, mode);
    RoundsOnResultGrid(s, k, MIN_QUANTUM, sign, mode);
    BelowNormalIff(x, k, sign, mode);
  }

  lemma AtMostNormal(s: nat, k: nat, sign: bool, mode: Mode)
    requires s <= T127 && RoundsToMultiple(s, T64, High(k), k % 2 == 0, sign, mode)
    ensures k <= T63
  {
  }

  lemma TwiceBranch(signif: U128, exp: int, sign: bool, mode: Mode)
    requires exp < Unbias(EXP_MIN)
    ensures NormalizeRound(signif, exp, sign, mode) ==
            Pack(ShiftRightRound(ShiftRightRound(signif, Unbias(EXP_MIN) - exp, sign, mode), 64, sign, mode),
                 EXP_DENORMAL, sign)
  {
    hide ShiftRightRound, Clz128, Shl;
  }

  lemma HalvedAtMost(signif: U128, n: nat, sign: bool, mode: Mode)
    requires n >= 1
    ensures ShiftRightRound(ShiftRightRound(signif, n, sign, mode), 64, sign, mode) <= T63
  {
    hide ShiftRightRound, Shr;
    var j := ShiftRightRound(signif, n, sign, mode);
    assert j <= T127 by { HalvedOnce(signif, n, sign, mode); }
    ShiftRightRounds(j, 64, sign, mode);
    RoundsToHigh(j, ShiftRightRound(j, 64, sign, mode), sign, mode);
    AtMostNormal(j, ShiftRightRound(j, 64, sign, mode), sign, mode);
  }

  lemma HalvedOnce(signif: U128, n: nat, sign: bool, mode: Mode)
    requires n >= 1
    ensures ShiftRightRound(signif, n, sign, mode) <= T127
  {
  }

  /** With an exponent below the normal range there are two; `x` may be what the significand was cut off from. */
  lemma TwiceKeptIff(signif: U128, exp: int, sign: bool, mode: Mode, x: real)
    requires exp < Unbias(EXP_MIN) && 0.0 < x < LeastNormal()
    ensures var n := Unbias(EXP_MIN) - exp;
            var k := ShiftRightRound(ShiftRightRound(signif, n, sign, mode), 64, sign, mode);
            Conforms(sign, x, mode, NormalizeRound(signif, exp, sign, mode)) <==>
            && !RoundsUpToNormal(x, sign, mode)
            && RoundsOnGrid(x, Real2(MIN_QUANTUM), Times(k, Real2(MIN_QUANTUM)), k % 2 == 0, sign, mode)
  {
    hide Times, Real2, NormalizeRound, ShiftRightRound, Conforms, RoundsUpToNormal, RoundsOnGrid, Pack, LeastNormal;
    var n := Unbias(EXP_MIN) - exp;
    TwiceBranch(signif, exp, sign, mode);
    HalvedAtMost(signif, n, sign, mode);
    BelowNormalIff(x, ShiftRightRound(ShiftRightRound(signif, n, sign, mode), 64, sign, mode), sign, mode);
  }

  lemma TwiceConformsIff(signif: U128, exp: int, sign: bool, mode: Mode)
    requires signif > 0 && exp < Unbias(EXP_MIN)
    ensures Conforms(sign, Times(signif, Real2(exp - 127)), mode, NormalizeRound(signif, exp, sign, mode)) <==>
            && !RoundsUpToNormal(Times(signif, Real2(exp - 127)), sign, mode)
            && !RoundsTwice(signif, Unbias(EXP_MIN) - exp, sign, mode)
  {
    hide Times, Real2, Clz128, NormalizeRound, ShiftRightRound, Conforms, RoundsUpToNormal, RoundsOnGrid, Pow2,
      RoundsToMultiple, RoundsTwice, LeastNormal;
    var x, n := Times(signif, Real2(exp - 127)), Unbias(EXP_MIN) - exp;
    var k := ShiftRightRound(ShiftRightRound(signif, n, sign, mode), 64, sign, mode);
    BelowNormalLead(signif, exp);
    TwiceKeptIff(signif, exp, sign, mode, x);
    TwiceRoundedIff(signif, n, sign, mode);
    ScaleRounding(signif, 0x1_0000_0000_0000_0000 * Pow2(n), High(k) * Pow2(n), k % 2 == 0, sign, mode,
        Real2(exp - 127));
    TimesShift(T64, n, exp - 127);
    TimesShift(High(k), n, exp - 127);
    Pow2Words();
    TimesShift(k, 64, MIN_QUANTUM - 64);
    assert High(k) == k * Pow2(64);
  }

  /** Where u128_normalize_round does not return what the standard asks for. */
  ghost predicate Spoils(signif: U128, exp: int, sign: bool, mode: Mode) {
    var lead := exp - Clz128(signif);
    if signif == 0 then lead >= Unbias(EXP_MIN)
    else if lead > Unbias(EXP_MAX) then signif == T127 && TowardZero(sign, mode)
    else
      && lead < Unbias(EXP_MIN)
      && (|| RoundsUpToNormal(Times(signif, Real2(exp - 127)), sign, mode)
          || (exp < Unbias(EXP_MIN) && RoundsTwice(signif, Unbias(EXP_MIN) - exp, sign, mode)))
  }

  lemma {:induction false} ZeroShift(n: nat, sign: bool, mode: Mode)
    ensures ShiftRightRound(0, n, sign, mode) == 0
  {
    if 1 <= n <= 127 {
      assert Shr(0, n) == 0 && Shr(0, n - 1) == 0 && LowBits(0, n - 1) == 0;
    }
  }

  lemma ZeroNormalized(exp: int, sign: bool, mode: Mode)
    ensures var r := NormalizeRound(0, exp, sign, mode);
            if exp - 128 < Unbias(EXP_MIN) then r == F80(0, 0, sign)
            else !(r.signif == 0 && r.exp == EXP_DENORMAL) && (Supported(r) ==> r.signif > 0)
  {
    hide ShiftRightRound, Shl;
    if exp > Unbias(EXP_MIN) { ZeroShl(exp - Unbias(EXP_MIN)); }
    if exp <= Unbias(EXP_MIN) { ZeroShift(Unbias(EXP_MIN) - exp, sign, mode); }
    ZeroShl(128);
    ZeroShift(64, sign, mode);
    assert BitLength(0) == 0;
  }

  lemma ZeroConformsIff(exp: int, sign: bool, mode: Mode)
    ensures Conforms(sign, 0.0, mode, NormalizeRound(0, exp, sign, mode)) <==> exp - 128 < Unbias(EXP_MIN)
  {
    hide Times, Real2, NormalizeRound, CorrectlyRounded;
    var r, zero := NormalizeRound(0, exp, sign, mode), F80(0, 0, sign);
    ZeroNormalized(exp, sign, mode);
    ZeroTimes(Real2(MIN_QUANTUM));
    TimesPositive(T64 - 1, Real2(MAX_QUANTUM));
    ExactIsCorrect(0.0, mode, zero);
    if CorrectlyRounded(0.0, mode, r) {
      CorrectIsFinite(0.0, mode, r);
      ExactOnly(0.0, mode, r, zero);
      if r.signif > 0 { TimesPositive(r.signif, Real2(QuantumExp(r))); }
    }
  }

  lemma NoBits()
    ensures Clz128(0) == 128
  {
  }

  lemma CorrectIsFinite(x: real, mode: Mode, r: F80)
    requires CorrectlyRounded(x, mode, r)
    ensures Finite(r)
  {
  }

  /**
   u128_normalize_round returns what the standard asks for, in every mode and for every 128-bit value
   and exponent, but exactly there.
   */
  lemma NormalizeRoundIff(signif: U128, exp: int, sign: bool, mode: Mode)
    ensures Conforms(sign, Times(signif, Real2(exp - 127)), mode, NormalizeRound(signif, exp, sign, mode)) <==>
            !Spoils(signif, exp, sign, mode)
  {
    hide Times, Real2, Clz128, NormalizeRound, Conforms, RoundsUpToNormal, RoundsTwice;
    var lead := exp - Clz128(signif);
    if signif == 0 {
      ZeroTimes(Real2(exp - 127));
      NoBits();
      ZeroConformsIff(exp, sign, mode);
    } else if lead > Unbias(EXP_MAX) {
      NormalRange(signif, exp);
      OverflowConformsIff(signif, exp, sign, mode, Times(signif, Real2(exp - 127)));
    } else if lead >= Unbias(EXP_MIN) {
      NormalConforms(signif, exp, sign, mode);
    } else if exp >= Unbias(EXP_MIN) {
      DenormalConformsIff(signif, exp, sign, mode);
    } else {
      TwiceConformsIff(signif, exp, sign, mode);
    }
  }
}
