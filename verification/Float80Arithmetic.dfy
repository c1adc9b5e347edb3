/** f80_mul against the exact product. */
module Float80Arithmetic {
  import opened PowersOfTwo
  import opened Float80
  import opened Float80Rounding
  import opened Float80Values
  import opened Float80Normalize
  import opened Float80Range

  // ----- multiplication -----

  lemma ProductOfTimes(s: nat, t: nat, p: real, q: real)
    ensures Times(s, p) * Times(t, q) == Times(s * t, p * q)
  {
    var x, y := s as real, t as real;
    assert (s * t) as real == x * y;
    assert (x * p) * (y * q) == (x * y) * (p * q);
  }

  lemma ProductMagnitude(a: F80, b: F80)
    ensures ExactProduct(a, b) == Times(Product(a.signif, b.signif), Real2(QuantumExp(a) + QuantumExp(b)))
  {
    ProductOfTimes(a.signif, b.signif, Real2(QuantumExp(a)), Real2(QuantumExp(b)));
    Real2Add(QuantumExp(a), QuantumExp(b));
  }

  lemma SignedProduct(a: F80, b: F80)
    ensures Value(a) * Value(b) == Signed(a.sign != b.sign, ExactProduct(a, b))
  {
    var x, y := Magnitude(a), Magnitude(b);
    assert (-x) * y == -(x * y) && x * (-y) == -(x * y) && (-x) * (-y) == x * y;
  }

  lemma MulUnfolds(a: F80, b: F80, mode: Mode)
    requires Finite(a) && Finite(b)
    ensures Mul(a, b, mode) ==
            NormalizeRound(Product(a.signif, b.signif), QuantumExp(a) + QuantumExp(b) + 127, a.sign != b.sign, mode)
              .(sign := a.sign != b.sign)
  {
    hide NormalizeRound, Product;
  }

  ghost function ExactProduct(a: F80, b: F80): real {
    Magnitude(a) * Magnitude(b)
  }

  /** f80_mul returns the exact product as the standard asks. */
  ghost predicate MulConforms(a: F80, b: F80, mode: Mode) {
    Conforms(a.sign != b.sign, ExactProduct(a, b), mode, Mul(a, b, mode))
  }

  lemma MulNormalizes(a: F80, b: F80, mode: Mode, s: U128, exp: int)
    requires Finite(a) && Finite(b)
    requires s == Product(a.signif, b.signif) && exp == QuantumExp(a) + QuantumExp(b) + 127
    ensures Mul(a, b, mode) == NormalizeRound(s, exp, a.sign != b.sign, mode)
    ensures Mul(a, b, mode).sign == (a.sign != b.sign)
    ensures ExactProduct(a, b) == Times(s, Real2(exp - 127))
  {
    hide *;
    MulUnfolds(a, b, mode);
    ProductMagnitude(a, b);
    NormalizeRoundSign(s, exp, a.sign != b.sign, mode);
  }

  /**
   f80_mul returns the exact product as the standard asks, for every two finite operands, unless
   u128_normalize_round spoils it.
   */
  lemma MulCorrectIff(a: F80, b: F80, mode: Mode)
    requires Finite(a) && Finite(b)
    ensures Mul(a, b, mode).sign == (a.sign != b.sign)
    ensures Value(a) * Value(b) == Signed(a.sign != b.sign, ExactProduct(a, b))
    ensures MulConforms(a, b, mode) <==>
            !Spoils(Product(a.signif, b.signif), QuantumExp(a) + QuantumExp(b) + 127, a.sign != b.sign, mode)
  {
    hide Spoils, Conforms, Mul, ExactProduct, Value, NormalizeRound, Product, QuantumExp, Real2, Times, Finite;
    var s, exp := Product(a.signif, b.signif), QuantumExp(a) + QuantumExp(b) + 127;
    SignedProduct(a, b);
    MulNormalizes(a, b, mode, s, exp);
    NormalizeRoundIff(s, exp, a.sign != b.sign, mode);
  }

  lemma {:induction false} FactorOfPow2(x: nat, y: nat, n: nat) returns (i: nat)
    requires x * y == Pow2(n)
    ensures i <= n && x == Pow2(i) && y == Pow2(n - i)
    decreases n
  {
    if n == 0 {
      i := 0;
      UnitFactors(x, y);
    } else if x % 2 == 0 {
      HalfProduct(x / 2, y, Pow2(n - 1));
      i := FactorOfPow2(x / 2, y, n - 1);
      i := i + 1;
    } else {
      EvenFactor(x, y, Pow2(n - 1));
      HalfProduct(y / 2, x, Pow2(n - 1));
      i := FactorOfPow2(x, y / 2, n - 1);
    }
  }

  lemma UnitFactors(x: nat, y: nat)
    requires x * y == 1
    ensures x == 1 && y == 1
  {
    if x > 1 { MulLe(2, 1, x, y); }
  }

  lemma HalfProduct(h: nat, y: nat, p: nat)
    requires (2 * h) * y == 2 * p
    ensures h * y == p
  {
    TwiceTimes(y, h);
  }

  lemma EvenFactor(x: nat, y: nat, p: nat)
    requires x % 2 == 1 && x * y == 2 * p
    ensures y % 2 == 0 && (2 * (y / 2)) * x == 2 * p
  {
    var h := x / 2;
    assert x * y == 2 * (h * y) + y;
  }

  /** No product of significands is 2^127, so no overflowing product is. */
  lemma ProductNotTop(x: U64, y: U64)
    ensures x * y != T127
  {
    hide Pow2;
    if x * y == T127 {
      Pow2DoubleWords();
      Pow2Words();
      var i := FactorOfPow2(x, y, 127);
      if i <= 63 { Pow2Monotone(64, 127 - i); } else { Pow2Monotone(64, i); }
    }
  }

  /** From the least normal number on, overflow included, f80_mul is always right. */
  lemma MulCorrect(a: F80, b: F80, mode: Mode)
    requires Finite(a) && Finite(b) && LeastNormal() <= ExactProduct(a, b)
    ensures MulConforms(a, b, mode)
  {
    hide MulConforms, ExactProduct, Real2, Times, LeastNormal, Magnitude, Clz128, RoundsUpToNormal, RoundsTwice;
    var s, exp := Product(a.signif, b.signif), QuantumExp(a) + QuantumExp(b) + 127;
    MulCorrectIff(a, b, mode);
    ProductMagnitude(a, b);
    ProductNotTop(a.signif, b.signif);
    LeastNormalPositive();
    ZeroTimes(Real2(exp - 127));
    NormalRange(s, exp);
  }

  lemma LeastNormalPositive()
    ensures LeastNormal() > 0.0
  {
    TimesPositive(T63, Real2(MIN_QUANTUM));
  }

  // ----- where it is not -----

  lemma Spoiled(a: F80, b: F80, mode: Mode, s: U128, exp: int)
    requires Finite(a) && Finite(b) && !a.sign && !b.sign
    requires s == Product(a.signif, b.signif) && exp == QuantumExp(a) + QuantumExp(b) + 127
    requires Spoils(s, exp, false, mode)
    ensures !MulConforms(a, b, mode)
  {
    hide MulConforms, Spoils, Magnitude, Value, Mul, Product, QuantumExp;
    MulCorrectIff(a, b, mode);
  }

  /** Zero times 2^127 is not a supported number. */
  lemma ZeroTimesLarge(mode: Mode)
    ensures !MulConforms(F80(0, EXP_DENORMAL, false), F80(T63, BIAS80 + 127, false), mode)
  {
    hide MulConforms, RoundsUpToNormal, RoundsTwice;
    NoBits();
    Spoiled(F80(0, EXP_DENORMAL, false), F80(T63, BIAS80 + 127, false), mode, 0, Unbias(EXP_MIN) + 128);
  }

  const HALF_UNIT_FACTOR := F80(0xc000_0000_0000_0000, BIAS80 - 1064, false)
  const HALF_UNIT_COFACTOR := F80(0xaaaa_aaaa_aaaa_aaab, 1000, false)

  lemma HidesTie(s: U128)
    requires T127 < s <= T127 + T63
    ensures RoundsTwice(s, 64, false, Nearest)
  {
    hide ShiftRightRound, Pow2;
    var j := ShiftRightRound(s, 64, false, Nearest);
    ShiftRightRounds(s, 64, false, Nearest);
    RoundsToHigh(s, j, false, Nearest);
    Pow2Words();
    assert j == T63 && j * Pow2(64) == T127;
  }

  /** A product just above half the least denormal number becomes zero: the first rounding makes it a tie. */
  lemma MulRoundsTwice()
    ensures !MulConforms(HALF_UNIT_FACTOR, HALF_UNIT_COFACTOR, Nearest)
  {
    hide MulConforms, RoundsUpToNormal, RoundsTwice, Clz128;
    var s: U128 := 0x8000_0000_0000_0000_4000_0000_0000_0000;
    HidesTie(s);
    Spoiled(HALF_UNIT_FACTOR, HALF_UNIT_COFACTOR, Nearest, s, Unbias(EXP_MIN) - 64);
  }

  /** The least normal number less half a unit is rounded up to it, with an exponent it must not have. */
  lemma MulReachesNormal()
    ensures !MulConforms(F80(T64 - 1, BIAS80 - 1, false), F80(T63, EXP_MIN, false), Nearest)
  {
    hide MulConforms, RoundsTwice, Clz128, Times, Real2;
    var s: U128 := T127 - T63;
    RoundsUpScaled(s, false, Nearest);
    LeadBelow(s);
    Spoiled(F80(T64 - 1, BIAS80 - 1, false), F80(T63, EXP_MIN, false), Nearest, s, Unbias(EXP_MIN));
  }
}
