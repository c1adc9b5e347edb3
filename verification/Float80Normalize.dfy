/** The steps of u128_normalize_round: the leading bit, the binade of the result, and packing. */
module Float80Normalize {
  import opened PowersOfTwo
  import opened Float80
  import opened Float80Rounding
  import opened Float80Values

  const MAX_QUANTUM := Unbias(EXP_MAX) - 63

  /** The least positive normal number and the greatest finite one. */
  ghost function LeastNormal(): real {
    Times(T63, Real2(MIN_QUANTUM))
  }

  ghost function GreatestFinite(): real {
    Times(T64 - 1, Real2(MAX_QUANTUM))
  }

  ghost function Signed(sign: bool, x: real): real {
    if sign then -x else x
  }

  lemma ClzFills(x: U128)
    requires x > 0
    ensures T127 <= Shl(x, Clz128(x)) < T128
  {
    var n := BitLength(x);
    Pow2DoubleWords();
    BitLengthBounds(x);
    BitLengthAtMost(x, 128);
    ShlIsMul(x, 128 - n);
    Pow2Add(n - 1, 128 - n);
    Pow2Add(n, 128 - n);
    MulLe(Pow2(n - 1), Pow2(128 - n), x, Pow2(128 - n));
    MulLe(x + 1, Pow2(128 - n), Pow2(n), Pow2(128 - n));
    NextMultiple(x, Pow2(128 - n));
  }

  /** The rounded upper half of a normalized significand. */
  lemma UpperHalf(big: U128, sign: bool, mode: Mode)
    requires T127 <= big
    ensures var k := ShiftRightRound(big, 64, sign, mode);
            T63 <= k <= T64 && RoundsToMultiple(big, T64, High(k), k % 2 == 0, sign, mode)
  {
    var k := ShiftRightRound(big, 64, sign, mode);
    ShiftRightRounds(big, 64, sign, mode);
    RoundsToHigh(big, k, sign, mode);
    HighBounds(big, k, sign, mode);
  }

  lemma RoundsToHigh(big: U128, k: U128, sign: bool, mode: Mode)
    requires RoundsTo(big, Pow2(64), sign, mode, k)
    ensures RoundsToMultiple(big, T64, High(k), k % 2 == 0, sign, mode)
  {
    Pow2Words();
    assert k * Pow2(64) == High(k);
  }

  lemma HighBounds(big: U128, k: U128, sign: bool, mode: Mode)
    requires T127 <= big && RoundsToMultiple(big, T64, High(k), k % 2 == 0, sign, mode)
    ensures T63 <= k <= T64
  {
  }

  lemma CarryKeepsValue(e: int)
    ensures Times(T64, Real2(e)) == Times(T63, Real2(e + 1))
  {
    Real2Succ(e);
    TimesTwice(T63, Real2(e));
  }

  /** Packing keeps the value k * 2^e, whether or not rounding carried out of 64 bits. */
  lemma PackValue(k: U128, exp: Exp15, sign: bool)
    requires T63 <= k <= T64 && EXP_MIN <= exp <= EXP_MAX
    ensures var r := Pack(k, exp, sign);
            && r.sign == sign && Supported(r)
            && (r.exp == EXP_SPECIAL <==> k == T64 && exp == EXP_MAX)
            && Magnitude(r) == Times(k, Real2(Unbias(exp) - 63))
            && (k % 2 == 0 ==> r.signif % 2 == 0)
  {
    CarryKeepsValue(Unbias(exp) - 63);
  }

  /** The exact value and its rounding, both on the grid of the result. */
  lemma RoundsOnResultGrid(big: U128, k: nat, e: int, sign: bool, mode: Mode)
    ensures RoundsToMultiple(big, T64, High(k), k % 2 == 0, sign, mode) <==>
            RoundsOnGrid(Times(big, Real2(e - 64)), Real2(e), Times(k, Real2(e)), k % 2 == 0, sign, mode)
  {
    ScaleRounding(big, T64, High(k), k % 2 == 0, sign, mode, Real2(e - 64));
    Pow2Words();
    TimesShift(k, 64, e - 64);
    assert High(k) == k * Pow2(64);
  }

  /** Where the leading bit of the exact value lies. */
  lemma LeadingBitBounds(big: U128, e: int)
    requires T127 <= big
    ensures Times(T63, Real2(e)) <= Times(big, Real2(e - 64)) < Times(T63, Real2(e + 1))
  {
    Pow2Words();
    Pow2DoubleWords();
    TimesShift(T63, 64, e - 64);
    TimesShift(T64, 64, e - 64);
    TimesMonotone(T127, big, Real2(e - 64));
    TimesMonotone(big, T128, Real2(e - 64));
    CarryKeepsValue(e);
    assert T63 * Pow2(64) == T127 && T64 * Pow2(64) == T128;
  }

  lemma BinadeOrder(e1: int, e2: int)
    requires e1 <= e2
    ensures Times(T63, Real2(e1)) <= Times(T63, Real2(e2))
  {
    Real2Monotone(e1, e2);
    assert T63 as real * (Real2(e2) - Real2(e1)) >= 0.0;
  }

  /** A value in the normal range has a leading bit whose exponent is in the normal range. */
  lemma BinadeInRange(x: real, e: int)
    requires Times(T63, Real2(e)) <= x < Times(T63, Real2(e + 1))
    ensures x >= LeastNormal() ==> e >= MIN_QUANTUM
    ensures x <= GreatestFinite() ==> e <= MAX_QUANTUM
  {
    if e < MIN_QUANTUM {
      BinadeOrder(e + 1, MIN_QUANTUM);
    } else if e > MAX_QUANTUM {
      BinadeOrder(MAX_QUANTUM + 1, e);
      CarryKeepsValue(MAX_QUANTUM);
      TimesMonotone(T64 - 1, T64, Real2(MAX_QUANTUM));
    }
  }

  /** The exact value handed to u128_normalize_round, seen from its leading bit. */
  lemma NormalRange(signif: U128, exp: int)
    requires signif > 0
    ensures var x, lead := Times(signif, Real2(exp - 127)), exp - Clz128(signif);
            && x == Times(Shl(signif, Clz128(signif)), Real2(lead - 127))
            && Times(T63, Real2(lead - 63)) <= x < Times(T63, Real2(lead - 62))
            && (x >= LeastNormal() ==> lead >= Unbias(EXP_MIN))
            && (x <= GreatestFinite() ==> lead <= Unbias(EXP_MAX))
  {
    hide Clz128, LeastNormal, GreatestFinite, Times;
    var shift := Clz128(signif);
    var lead := exp - shift;
    ClzFills(signif);
    ShlIsMul(signif, shift);
    TimesShift(signif, shift, lead - 127);
    LeadingBitBounds(Shl(signif, shift), lead - 63);
    BinadeInRange(Times(signif, Real2(exp - 127)), lead - 63);
  }

  /** No carry into infinity from a value within the finite range. */
  lemma NoCarryToInfinity(x: real, k: nat, sign: bool, mode: Mode)
    requires RoundsOnGrid(x, Real2(MAX_QUANTUM), Times(k, Real2(MAX_QUANTUM)), k % 2 == 0, sign, mode)
    requires x <= GreatestFinite()
    ensures k != T64
  {
    TimesLinear(T64, 1, Real2(MAX_QUANTUM));
  }

  lemma NormalBranch(signif: U128, exp: int, sign: bool, mode: Mode)
    requires signif > 0 && Unbias(EXP_MIN) <= exp - Clz128(signif) <= Unbias(EXP_MAX)
    ensures T127 <= Shl(signif, Clz128(signif)) < T128
    ensures NormalizeRound(signif, exp, sign, mode) ==
            RoundToHigh(Shl(signif, Clz128(signif)), exp - Clz128(signif) + BIAS80, sign, mode)
  {
    ClzFills(signif);
  }

  /** A significand that fills 128 bits is only rounded. */
  lemma PackedFull(s: U128, e: int, sign: bool, mode: Mode)
    requires s >= T127 && MIN_QUANTUM <= e <= MAX_QUANTUM
    ensures NormalizeRound(s, e + 63, sign, mode) == Pack(ShiftRightRound(s, 64, sign, mode), e + 63 + BIAS80, sign)
  {
    hide ShiftRightRound, Pack;
    Pow2DoubleWords();
    BitLengthAtLeast(s, 127);
    NormalBranch(s, e + 63, sign, mode);
  }

  lemma NormalizeRoundSign(signif: U128, exp: int, sign: bool, mode: Mode)
    ensures NormalizeRound(signif, exp, sign, mode).sign == sign
  {
    hide ShiftRightRound, Clz128, Shl;
  }
}
