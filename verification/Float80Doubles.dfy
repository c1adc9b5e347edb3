/** f80_to_double against the double that IEEE 754-2008 asks for. */
module Float80Doubles {
  import opened PowersOfTwo
  import opened Float80
  import opened Float80Rounding
  import opened Float80Values
  import opened Float80Range
  import opened Float80Convert

  const T52 := 0x10_0000_0000_0000
  const T53 := 0x20_0000_0000_0000

  // ----- what the standard asks for -----

  const LEAST_QUANTUM := 1 - BIAS64 - 52
  const GREATEST_QUANTUM := EXP64_MAX - BIAS64 - 52

  predicate FiniteDouble(d: Double) {
    d.exp != EXP64_SPECIAL
  }

  /** The significand with its hidden bit, and the exponent of its last place. */
  function FullSignif(d: Double): nat {
    if d.exp == 0 then d.signif else d.signif + T52
  }

  function LastPlace(d: Double): int {
    (if d.exp == 0 then 1 else d.exp) - BIAS64 - 52
  }

  ghost function SizeOf(d: Double): real {
    Times(FullSignif(d), Real2(LastPlace(d)))
  }

  ghost function GreatestDouble(): real {
    Times(T53 - 1, Real2(GREATEST_QUANTUM))
  }

  ghost function LeastNormalDouble(): real {
    Times(T52, Real2(LEAST_QUANTUM))
  }

  ghost predicate AtLeast(x: real, d: Double) {
    SizeOf(d) >= x && forall g :: FiniteDouble(g) && SizeOf(g) >= x ==> SizeOf(g) >= SizeOf(d)
  }

  ghost predicate AtMost(x: real, d: Double) {
    SizeOf(d) <= x && forall g :: FiniteDouble(g) && SizeOf(g) <= x ==> SizeOf(g) <= SizeOf(d)
  }

  ghost predicate Closest(x: real, d: Double) {
    forall g :: FiniteDouble(g) ==>
      && Distance(SizeOf(d), x) <= Distance(SizeOf(g), x)
      && (Distance(SizeOf(d), x) == Distance(SizeOf(g), x) ==> SizeOf(g) == SizeOf(d) || d.signif % 2 == 0)
  }

  /** Section 7.4 of the standard, for doubles. */
  ghost function DoubleOverflow(sign: bool, x: real, mode: Mode): Double {
    if RoundsAway(sign, mode) || (mode == Nearest && 2.0 * (x - GreatestDouble()) >= Real2(GREATEST_QUANTUM))
    then Double(0, EXP64_SPECIAL, sign)
    else Double(T52 - 1, EXP64_MAX, sign)
  }

  /** `d` is the double that the standard asks for when the exact result has this sign and magnitude. */
  ghost predicate DoubleConforms(sign: bool, x: real, mode: Mode, d: Double) {
    if x > GreatestDouble() then d == DoubleOverflow(sign, x, mode)
    else
      && FiniteDouble(d) && d.sign == sign
      && if RoundsAway(sign, mode) then AtLeast(x, d) else if mode == Nearest then Closest(x, d) else AtMost(x, d)
  }

  // ----- doubles on the grid of a binade -----

  predicate OnDoubleBinade(k: int, e: int) {
    LEAST_QUANTUM <= e <= GREATEST_QUANTUM && (if e == LEAST_QUANTUM then 0 else T52) <= k <= T53
  }

  function GridDouble(k: nat, e: int, sign: bool): Double
    requires OnDoubleBinade(k, e)
  {
    if k < T52 then Double(k, 0, sign)
    else if k < T53 then Double(k - T52, e - LEAST_QUANTUM + 1, sign)
    else Double(0, e - LEAST_QUANTUM + 2, sign)
  }

  lemma GridDoubleSize(k: nat, e: int, sign: bool)
    requires OnDoubleBinade(k, e)
    ensures var d := GridDouble(k, e, sign);
            && d.sign == sign && (FiniteDouble(d) <==> !(k == T53 && e == GREATEST_QUANTUM))
            && SizeOf(d) == Times(k, Real2(e))
            && (k % 2 == 0 <==> d.signif % 2 == 0)
  {
    hide Times, Real2;
    Real2Succ(e);
    TimesTwice(T52, Real2(e));
  }

  ghost predicate InDoubleBinade(x: real, e: int) {
    && LEAST_QUANTUM <= e <= GREATEST_QUANTUM
    && x < Times(T53, Real2(e))
    && if e == LEAST_QUANTUM then x >= 0.0 else x >= Times(T52, Real2(e))
  }

  /** Every double lies on the grid of step 2^e, or below the binade that grid belongs to. */
  lemma DoubleGridPoint(g: Double, e: int) returns (onGrid: bool, j: int)
    requires e >= LEAST_QUANTUM
    ensures onGrid ==> SizeOf(g) == Times(j, Real2(e))
    ensures !onGrid ==> e > LEAST_QUANTUM && SizeOf(g) < Times(T52, Real2(e))
  {
    onGrid, j := LastPlace(g) >= e, 0;
    if onGrid {
      j := CoarserOnGrid(FullSignif(g), LastPlace(g), e);
    } else {
      Real2Monotone(LastPlace(g), e - 1);
      Real2Succ(e - 1);
      BelowDoubleBinade(FullSignif(g), Real2(LastPlace(g)), Real2(e));
    }
  }

  lemma BelowDoubleBinade(s: nat, small: real, q: real)
    requires s < T53 && 0.0 < small && 2.0 * small <= q
    ensures Times(s, small) < Times(T52, q)
  {
    hide Times;
    TimesMonotone(s, T53, small);
    TimesTwice(T52, small);
    TimesGrows(T52, 2.0 * small, q);
  }

  lemma DoubleRoundingSuffices(x: real, e: int, k: nat, sign: bool, mode: Mode)
    requires InDoubleBinade(x, e) && OnDoubleBinade(k, e) && x <= GreatestDouble()
    requires RoundsOnGrid(x, Real2(e), Times(k, Real2(e)), k % 2 == 0, sign, mode)
    ensures DoubleConforms(sign, x, mode, GridDouble(k, e, sign))
  {
    hide Times, Real2, GridDouble, SizeOf;
    var q, m := Real2(e), Times(k, Real2(e));
    GridDoubleSize(k, e, sign);
    OnePlace(T53 - 1, q);
    GridGap(T52, k, q);
    forall g | FiniteDouble(g)
      ensures m <= x < m + q && SizeOf(g) <= x ==> SizeOf(g) <= m
      ensures m - q < x <= m && SizeOf(g) >= x ==> SizeOf(g) >= m
      ensures -q <= 2.0 * (x - m) <= q ==> Distance(m, x) <= Distance(SizeOf(g), x)
      ensures -q < 2.0 * (x - m) < q && Distance(m, x) == Distance(SizeOf(g), x) ==> SizeOf(g) == m
    {
      var onGrid, j := DoubleGridPoint(g, e);
      GridGap(j, k, q);
    }
  }

  lemma DoubleRoundingNeeded(x: real, e: int, k: nat, sign: bool, mode: Mode)
    requires InDoubleBinade(x, e) && OnDoubleBinade(k, e) && x <= GreatestDouble()
    requires DoubleConforms(sign, x, mode, GridDouble(k, e, sign))
    ensures RoundsOnGrid(x, Real2(e), Times(k, Real2(e)), k % 2 == 0, sign, mode)
  {
    hide Times, Real2, GridDouble, SizeOf;
    var q := Real2(e);
    GridDoubleSize(k, e, sign);
    OnePlace(k, q);
    ZeroTimes(q);
    if OnDoubleBinade(k + 1, e) {
      GridDoubleSize(k + 1, e, sign);
      assert SizeOf(GridDouble(k + 1, e, sign)) == Times(k, q) + q;
    }
    if OnDoubleBinade(k - 1, e) {
      GridDoubleSize(k - 1, e, sign);
      assert SizeOf(GridDouble(k - 1, e, sign)) == Times(k, q) - q;
    }
  }

  lemma DoubleOverflowIff(x: real, k: nat, sign: bool, mode: Mode)
    requires InDoubleBinade(x, GREATEST_QUANTUM) && OnDoubleBinade(k, GREATEST_QUANTUM) && x > GreatestDouble()
    ensures GridDouble(k, GREATEST_QUANTUM, sign) == DoubleOverflow(sign, x, mode) <==>
            RoundsOnGrid(x, Real2(GREATEST_QUANTUM), Times(k, Real2(GREATEST_QUANTUM)), k % 2 == 0, sign, mode)
  {
    hide Times, Real2;
    var q := Real2(GREATEST_QUANTUM);
    OnePlace(T53 - 1, q);
    OnePlace(T53 - 2, q);
    TimesMonotone(k, T53 - 2, q);
  }

  lemma TopDoubleBinade(x: real, e: int)
    requires InDoubleBinade(x, e) && x > GreatestDouble()
    ensures e == GREATEST_QUANTUM
  {
    hide Times, Real2;
    if e < GREATEST_QUANTUM {
      Real2Succ(e);
      TimesTwice(T52, Real2(e));
      Real2Monotone(e + 1, GREATEST_QUANTUM);
      TimesGrows(T52, Real2(e + 1), Real2(GREATEST_QUANTUM));
      TimesMonotone(T52, T53 - 1, Real2(GREATEST_QUANTUM));
    }
  }

  /** On the grid of the binade of `x`: conforming to the standard is rounding on that grid. */
  lemma OnDoubleGridIff(x: real, e: int, k: nat, sign: bool, mode: Mode)
    requires InDoubleBinade(x, e) && OnDoubleBinade(k, e)
    ensures DoubleConforms(sign, x, mode, GridDouble(k, e, sign)) <==>
            RoundsOnGrid(x, Real2(e), Times(k, Real2(e)), k % 2 == 0, sign, mode)
  {
    hide Times, Real2, GridDouble, DoubleOverflow, RoundsOnGrid, InDoubleBinade, AtLeast, AtMost, Closest,
      GreatestDouble;
    if x > GreatestDouble() {
      TopDoubleBinade(x, e);
      DoubleOverflowIff(x, k, sign, mode);
    } else {
      if DoubleConforms(sign, x, mode, GridDouble(k, e, sign)) { DoubleRoundingNeeded(x, e, k, sign, mode); }
      if RoundsOnGrid(x, Real2(e), Times(k, Real2(e)), k % 2 == 0, sign, mode) {
        DoubleRoundingSuffices(x, e, k, sign, mode);
      }
    }
  }

  // ----- doubles of the normal range -----

  /** The exponent field that f80_to_double starts from. */
  function NewExp(f: F80): int {
    Unbias(f.exp) + BIAS64
  }

  lemma ElevenBits(i: U64, sign: bool, mode: Mode)
    ensures var k := ShiftRightRound(i, 11, sign, mode);
            RoundsToMultiple(i, 0x800, k * 0x800, k % 2 == 0, sign, mode)
  {
    hide ShiftRightRound;
    ShiftRightRounds(i, 11, sign, mode);
    assert Pow2(11) == 0x800;
  }

  lemma ElevenOnGrid(i: nat, k: nat, e: int, sign: bool, mode: Mode)
    ensures RoundsToMultiple(i, 0x800, k * 0x800, k % 2 == 0, sign, mode) <==>
            RoundsOnGrid(Times(i, Real2(e - 11)), Real2(e), Times(k, Real2(e)), k % 2 == 0, sign, mode)
  {
    hide Times, Real2, RoundsToMultiple, RoundsOnGrid;
    ScaleRounding(i, 0x800, k * 0x800, k % 2 == 0, sign, mode, Real2(e - 11));
    assert Pow2(11) == 0x800;
    TimesShift(k, 11, e - 11);
  }

  lemma WideCode(f: F80, mode: Mode)
    requires Normal(f) && 1 <= NewExp(f) <= EXP64_MAX
    ensures var k := ShiftRightRound(f.signif, 11, f.sign, mode);
            && T52 <= k <= T53
            && ToDouble(f, mode) == GridDouble(k, NewExp(f) - 1 + LEAST_QUANTUM, f.sign)
  {
    hide ShiftRightRound;
    ElevenBits(f.signif, f.sign, mode);
  }

  lemma WideConforms(f: F80, mode: Mode)
    requires Finite(f) && 1 <= NewExp(f) <= EXP64_MAX
    ensures DoubleConforms(f.sign, Magnitude(f), mode, ToDouble(f, mode))
  {
    hide ShiftRightRound, ToDouble, DoubleConforms, RoundsToMultiple, RoundsOnGrid, Times, Real2, GridDouble;
    var k, e := ShiftRightRound(f.signif, 11, f.sign, mode), NewExp(f) - 1 + LEAST_QUANTUM;
    WideCode(f, mode);
    ElevenBits(f.signif, f.sign, mode);
    ElevenOnGrid(f.signif, k, e, f.sign, mode);
    assert Pow2(11) == 0x800;
    TimesShift(T52, 11, e - 11);
    TimesShift(T53, 11, e - 11);
    TimesMonotone(T63, f.signif, Real2(e - 11));
    TimesMonotone(f.signif, T64, Real2(e - 11));
    TimesPositive(f.signif, Real2(e - 11));
    OnDoubleGridIff(Magnitude(f), e, k, f.sign, mode);
  }

  // ----- beyond it -----

  lemma BeyondDoublesIff(f: F80, mode: Mode)
    requires Finite(f) && NewExp(f) > EXP64_MAX
    ensures DoubleConforms(f.sign, Magnitude(f), mode, ToDouble(f, mode)) <==> !TowardZero(f.sign, mode)
  {
    hide Times, Real2, AtLeast, AtMost, Closest;
    var q := Real2(GREATEST_QUANTUM);
    TimesMonotone(T63, f.signif, Real2(QuantumExp(f)));
    assert Pow2(11) == 0x800;
    TimesShift(T53, 11, GREATEST_QUANTUM - 11);
    TimesTwice(T63, Real2(GREATEST_QUANTUM - 11));
    Real2Succ(GREATEST_QUANTUM - 11);
    Real2Monotone(GREATEST_QUANTUM - 10, QuantumExp(f));
    TimesGrows(T63, Real2(GREATEST_QUANTUM - 10), Real2(QuantumExp(f)));
    OnePlace(T53 - 1, q);
    assert T53 * 0x800 == T64;
  }

  // ----- below it -----

  /** The first of the two roundings; the lowest bit has been dropped before it. */
  function FirstRounding(f: F80, mode: Mode): U128
    requires NewExp(f) <= 0
  {
    ShiftRightRound(f.signif / 2, -NewExp(f), f.sign, mode)
  }

  /** The first rounding, or the dropped bit, has moved the value to a whole place or to a tie of the second. */
  predicate HidesSide(f: F80, mode: Mode)
    requires NewExp(f) <= 0
  {
    var j := FirstRounding(f, mode);
    var exact := j * Pow2(1 - NewExp(f));
    || (RoundsAway(f.sign, mode) && j % 0x800 == 0 && exact < f.signif)
    || (mode == Nearest && j % 0x800 == 0x400 && if (j / 0x800) % 2 == 0 then exact < f.signif else f.signif < exact)
  }

  /** A magnitude below the least normal double that rounds up to it. */
  ghost predicate ReachesNormalDouble(x: real, sign: bool, mode: Mode) {
    && x < LeastNormalDouble()
    && if mode == Nearest then 2.0 * (LeastNormalDouble() - x) <= Real2(LEAST_QUANTUM)
       else RoundsAway(sign, mode) && LeastNormalDouble() - x < Real2(LEAST_QUANTUM)
  }

  /** The linear core: `jp` is j * p, `up` is p times what the second rounding takes off j, and `kp` the rest. */
  lemma LinearNarrow(s: nat, p: int, j: nat, k: nat, jp: int, up: int, kp: int, sign: bool, mode: Mode)
    requires p > 0 && RoundsToMultiple(s / 2, p, jp, j % 2 == 0, sign, mode) && (p == 1 ==> jp == j)
    requires RoundsToMultiple(j, 0x800, k * 0x800, k % 2 == 0, sign, mode)
    requires jp == kp + up
    requires var u := j - k * 0x800;
      && (u <= -1 ==> up <= -p) && (u == 0 ==> up == 0) && (u >= 1 ==> up >= p)
      && (u <= 0x7ff ==> up <= 0x7ff * p) && (u >= -0x7ff ==> up >= -0x7ff * p)
      && (u <= 0x3ff ==> up <= 0x3ff * p) && (u >= -0x3ff ==> up >= -0x3ff * p)
      && (u == 0x400 ==> up == 0x400 * p) && (u == -0x400 ==> up == -0x400 * p)
    ensures s > 2 * kp - 0x1000 * p
    ensures RoundsToMultiple(s, 0x1000 * p, 2 * kp, k % 2 == 0, sign, mode) <==>
            !(|| (RoundsAway(sign, mode) && j == k * 0x800 && 2 * jp < s)
              || (&& mode == Nearest
                  && (|| (j - k * 0x800 == 0x400 && 2 * jp < s)
                      || (j - k * 0x800 == -0x400 && s < 2 * jp))))
  {
    var t, u := s / 2, j - k * 0x800;
    assert 2 * t <= s <= 2 * t + 1;
    if mode == Nearest {
      assert p == 1 ==> t == jp;
      assert -0x3ff <= u <= 0x3ff ==> -0x1000 * p < 2 * (s - 2 * kp) < 0x1000 * p;
    }
  }

  lemma StepBounds(u: int, p: int)
    requires p > 0
    ensures (u <= -1 ==> u * p <= -p) && (u == 0 ==> u * p == 0) && (u >= 1 ==> u * p >= p)
    ensures (u <= 0x7ff ==> u * p <= 0x7ff * p) && (u >= -0x7ff ==> u * p >= -0x7ff * p)
    ensures (u <= 0x3ff ==> u * p <= 0x3ff * p) && (u >= -0x3ff ==> u * p >= -0x3ff * p)
    ensures (u == 0x400 ==> u * p == 0x400 * p) && (u == -0x400 ==> u * p == -0x400 * p)
  {
    MultipleBound(u, p);
    if u <= 0x7ff { MulMonotone(u, 0x7ff, p); }
    if u >= -0x7ff { MulMonotone(-0x7ff, u, p); }
    if u <= 0x3ff { MulMonotone(u, 0x3ff, p); }
    if u >= -0x3ff { MulMonotone(-0x3ff, u, p); }
  }

  /** Which side of a whole place, or of a tie, the first rounding has landed on. */
  lemma SecondRounding(j: nat, k: nat, sign: bool, mode: Mode)
    requires RoundsToMultiple(j, 0x800, k * 0x800, k % 2 == 0, sign, mode)
    ensures RoundsAway(sign, mode) ==> (j == k * 0x800 <==> j % 0x800 == 0)
    ensures mode == Nearest ==>
      && (j - k * 0x800 == 0x400 <==> j % 0x800 == 0x400 && (j / 0x800) % 2 == 0)
      && (j - k * 0x800 == -0x400 <==> j % 0x800 == 0x400 && (j / 0x800) % 2 == 1)
  {
    var h, low := j / 0x800, j % 0x800;
    assert j == h * 0x800 + low;
    assert k == h || k == h + 1;
  }

  lemma TwoRoundings(s: nat, p: nat, j: nat, k: nat, sign: bool, mode: Mode)
    requires p > 0 && RoundsToMultiple(s / 2, p, j * p, j % 2 == 0, sign, mode)
    requires RoundsToMultiple(j, 0x800, k * 0x800, k % 2 == 0, sign, mode)
    ensures s > 2 * ((k * 0x800) * p) - 0x1000 * p
    ensures RoundsToMultiple(s, 0x1000 * p, 2 * ((k * 0x800) * p), k % 2 == 0, sign, mode) <==>
            !(|| (RoundsAway(sign, mode) && j == k * 0x800 && 2 * (j * p) < s)
              || (&& mode == Nearest
                  && (|| (j - k * 0x800 == 0x400 && 2 * (j * p) < s)
                      || (j - k * 0x800 == -0x400 && s < 2 * (j * p)))))
  {
    hide RoundsToMultiple;
    SubTimes(j, k * 0x800, p);
    StepBounds(j - k * 0x800, p);
    LinearNarrow(s, p, j, k, j * p, (j - k * 0x800) * p, (k * 0x800) * p, sign, mode);
  }

  lemma NarrowRoundsIff(f: F80, mode: Mode)
    requires NewExp(f) <= 0
    ensures var p, k := Pow2(-NewExp(f)), ShiftRightRound(FirstRounding(f, mode), 11, f.sign, mode);
            && f.signif > 2 * ((k * 0x800) * p) - 0x1000 * p
            && (RoundsToMultiple(f.signif, 0x1000 * p, 2 * ((k * 0x800) * p), k % 2 == 0, f.sign, mode) <==>
                !HidesSide(f, mode))
  {
    hide ShiftRightRound, Pow2, RoundsToMultiple;
    var n, s, j := -NewExp(f), f.signif, FirstRounding(f, mode);
    var k := ShiftRightRound(j, 11, f.sign, mode);
    ShiftRightRounds(s / 2, n, f.sign, mode);
    assert j < T64 by { FirstSmall(f, mode); }
    ElevenBits(j, f.sign, mode);
    TwoRoundings(s, Pow2(n), j, k, f.sign, mode);
    SecondRounding(j, k, f.sign, mode);
    DoubledPow2(j, n);
  }

  lemma DoubledPow2(j: nat, n: nat)
    ensures j * Pow2(n + 1) == 2 * (j * Pow2(n))
  {
    TwiceTimes(j, Pow2(n));
  }

  lemma FirstSmall(f: F80, mode: Mode)
    requires NewExp(f) <= 0
    ensures FirstRounding(f, mode) <= T63
  {
  }

  lemma NarrowCode(f: F80, mode: Mode)
    requires Finite(f) && NewExp(f) <= 0
    ensures var k := ShiftRightRound(FirstRounding(f, mode), 11, f.sign, mode);
            k <= T52 && ToDouble(f, mode) == Double(k % T52, 0, f.sign)
  {
    hide ShiftRightRound;
    FirstSmall(f, mode);
    ElevenBits(FirstRounding(f, mode), f.sign, mode);
  }

  lemma ReachesNormalIff(x: real, k: nat, sign: bool, mode: Mode)
    requires k <= T52 && x < LeastNormalDouble()
    requires RoundsOnGrid(x, Real2(LEAST_QUANTUM), Times(k, Real2(LEAST_QUANTUM)), k % 2 == 0, sign, mode)
    ensures k == T52 <==> ReachesNormalDouble(x, sign, mode)
  {
    hide Times, Real2;
    OnePlace(T52 - 1, Real2(LEAST_QUANTUM));
    OnePlace(T52 - 2, Real2(LEAST_QUANTUM));
    TimesMonotone(k, T52 - 2, Real2(LEAST_QUANTUM));
  }

  /** The digit kept below the normal range; the field of 52 bits drops that of the least normal double. */
  lemma BelowNormalDoubleIff(x: real, k: nat, sign: bool, mode: Mode)
    requires 0.0 <= x < LeastNormalDouble() && k <= T52
    requires x > Times(k, Real2(LEAST_QUANTUM)) - Real2(LEAST_QUANTUM)
    ensures DoubleConforms(sign, x, mode, Double(k % T52, 0, sign)) <==>
            && !ReachesNormalDouble(x, sign, mode)
            && RoundsOnGrid(x, Real2(LEAST_QUANTUM), Times(k, Real2(LEAST_QUANTUM)), k % 2 == 0, sign, mode)
  {
    hide Times, Real2, DoubleConforms, ReachesNormalDouble;
    var q := Real2(LEAST_QUANTUM);
    TimesMonotone(T52, T53, q);
    OnDoubleGridIff(x, LEAST_QUANTUM, k % T52, sign, mode);
    if RoundsOnGrid(x, q, Times(k, q), k % 2 == 0, sign, mode) { ReachesNormalIff(x, k, sign, mode); }
    ZeroTimes(q);
    OnePlace(T52 - 1, q);
    OnePlace(1, q);
    TimesMonotone(2, T52 - 1, q);
  }

  /** Where f80_to_double does not return the double that the standard asks for. */
  ghost predicate DoubleSpoils(f: F80, mode: Mode) {
    if NewExp(f) > EXP64_MAX then TowardZero(f.sign, mode)
    else NewExp(f) <= 0 && (ReachesNormalDouble(Magnitude(f), f.sign, mode) || HidesSide(f, mode))
  }

  /** Rounding to the places of the denormal doubles, on the significand and on the value. */
  lemma NarrowGridIff(s: nat, k: nat, n: nat, e: int, sign: bool, mode: Mode)
    requires e == LEAST_QUANTUM - 12 - n
    ensures RoundsToMultiple(s, 0x1000 * Pow2(n), 2 * ((k * 0x800) * Pow2(n)), k % 2 == 0, sign, mode) <==>
            RoundsOnGrid(Times(s, Real2(e)), Real2(LEAST_QUANTUM), Times(k, Real2(LEAST_QUANTUM)), k % 2 == 0, sign,
                         mode)
    ensures s > 2 * ((k * 0x800) * Pow2(n)) - 0x1000 * Pow2(n) ==>
            Times(s, Real2(e)) > Times(k, Real2(LEAST_QUANTUM)) - Real2(LEAST_QUANTUM)
  {
    hide RoundsToMultiple, RoundsOnGrid, Times, Real2, Pow2;
    var d, m, c := 0x1000 * Pow2(n), 2 * ((k * 0x800) * Pow2(n)), Real2(e);
    NarrowUnits(k, n, e);
    ScaleRounding(s, d, m, k % 2 == 0, sign, mode, c);
    TimesMonotone(m - d, s, c);
    TimesLinear(m, d, c);
  }

  lemma NarrowNormalIff(f: F80, mode: Mode)
    requires Normal(f) && NewExp(f) <= 0
    ensures DoubleConforms(f.sign, Magnitude(f), mode, ToDouble(f, mode)) <==>
            !ReachesNormalDouble(Magnitude(f), f.sign, mode) && !HidesSide(f, mode)
  {
    hide ShiftRightRound, FirstRounding, ToDouble, DoubleConforms, RoundsToMultiple, RoundsOnGrid, Times, Real2, Pow2,
      HidesSide, ReachesNormalDouble;
    var k := ShiftRightRound(FirstRounding(f, mode), 11, f.sign, mode);
    NarrowCode(f, mode);
    NarrowRoundsIff(f, mode);
    NarrowGridIff(f.signif, k, -NewExp(f), QuantumExp(f), f.sign, mode);
    NarrowBelow(f);
    BelowNormalDoubleIff(Magnitude(f), k, f.sign, mode);
  }

  lemma NarrowUnits(k: nat, n: nat, e: int)
    requires e == LEAST_QUANTUM - 12 - n
    ensures Times(0x1000 * Pow2(n), Real2(e)) == Real2(LEAST_QUANTUM)
    ensures Times(2 * ((k * 0x800) * Pow2(n)), Real2(e)) == Times(k, Real2(LEAST_QUANTUM))
  {
    hide Times, Real2, Pow2;
    Pow2Twelve();
    TimesShift(0x1000, n, e);
    TimesShift(1, 12, e + n);
    TimesShift(k, 12, e + n);
    TimesShift(k * 0x1000, n, e);
    assert 2 * ((k * 0x800) * Pow2(n)) == (k * 0x1000) * Pow2(n);
  }

  lemma Pow2Twelve()
    ensures Pow2(12) == 0x1000
  {
    assert Pow2(11) == 0x800;
  }

  lemma NarrowBelow(f: F80)
    requires Finite(f) && NewExp(f) <= 0
    ensures 0.0 <= Magnitude(f) < LeastNormalDouble()
  {
    hide Times, Real2;
    var c := Real2(LEAST_QUANTUM - 12);
    Pow2Twelve();
    TimesShift(T52, 12, LEAST_QUANTUM - 12);
    TimesMonotone(f.signif, T64, Real2(QuantumExp(f)));
    Real2Monotone(QuantumExp(f), LEAST_QUANTUM - 12);
    TimesGrows(T64, Real2(QuantumExp(f)), c);
    if f.signif > 0 { TimesPositive(f.signif, Real2(QuantumExp(f))); } else { ZeroTimes(Real2(QuantumExp(f))); }
  }

  /** A denormal operand is far below the least double. */
  lemma NarrowDenormalIff(f: F80, mode: Mode)
    requires Finite(f) && f.exp == EXP_DENORMAL
    ensures DoubleConforms(f.sign, Magnitude(f), mode, ToDouble(f, mode)) <==>
            !ReachesNormalDouble(Magnitude(f), f.sign, mode) && !HidesSide(f, mode)
  {
    hide ToDouble, DoubleConforms, Times, Real2, Pow2, Shr, LowBits;
    var q, x := Real2(LEAST_QUANTUM), Magnitude(f);
    var k := ShiftRightRound(FirstRounding(f, mode), 11, f.sign, mode);
    NarrowCode(f, mode);
    NarrowBelow(f);
    TinyDenormal(f);
    ZeroTimes(q);
    OnePlace(0, q);
    OnePlace(T52 - 1, q);
    TimesMonotone(1, T52 - 1, q);
    assert k == (if RoundsAway(f.sign, mode) && f.signif >= 2 then 1 else 0) by { TinyDigit(f, mode); }
    BelowNormalDoubleIff(x, k, f.sign, mode);
  }

  lemma TinyDigit(f: F80, mode: Mode)
    requires Finite(f) && f.exp == EXP_DENORMAL
    ensures FirstRounding(f, mode) == (if RoundsAway(f.sign, mode) && f.signif >= 2 then 1 else 0)
    ensures ShiftRightRound(FirstRounding(f, mode), 11, f.sign, mode) == FirstRounding(f, mode)
  {
    hide Shr, LowBits;
    ElevenBits(FirstRounding(f, mode), f.sign, mode);
  }

  lemma TinyDenormal(f: F80)
    requires Finite(f) && f.exp == EXP_DENORMAL
    ensures 0.0 <= 4.0 * Magnitude(f) < Real2(LEAST_QUANTUM) && (Magnitude(f) == 0.0 <==> f.signif == 0)
  {
    hide Times, Real2, Pow2;
    FinerBelowBinade(f.signif, MIN_QUANTUM, LEAST_QUANTUM - 65);
    Pow2Words();
    TimesShift(1, 63, LEAST_QUANTUM - 65);
    Real2Succ(LEAST_QUANTUM - 1);
    Real2Succ(LEAST_QUANTUM - 2);
    if f.signif > 0 { TimesPositive(f.signif, Real2(MIN_QUANTUM)); } else { ZeroTimes(Real2(MIN_QUANTUM)); }
  }

  /** f80_to_double returns the double that the standard asks for, for every finite operand, but exactly there. */
  lemma ToDoubleIff(f: F80, mode: Mode)
    requires Finite(f)
    ensures DoubleConforms(f.sign, Magnitude(f), mode, ToDouble(f, mode)) <==> !DoubleSpoils(f, mode)
  {
    hide DoubleConforms, ToDouble, Magnitude, HidesSide, ReachesNormalDouble;
    if NewExp(f) > EXP64_MAX {
      BeyondDoublesIff(f, mode);
    } else if NewExp(f) >= 1 {
      WideConforms(f, mode);
    } else if f.exp == EXP_DENORMAL {
      NarrowDenormalIff(f, mode);
    } else {
      NarrowNormalIff(f, mode);
    }
  }

  /** The greatest number below the least normal double becomes zero: the carry has no place in the field. */
  lemma CarryDropped()
    ensures var f := F80(T64 - 1, BIAS80 - BIAS64, false);
            && ToDouble(f, Nearest) == Double(0, 0, false)
            && !DoubleConforms(false, Magnitude(f), Nearest, ToDouble(f, Nearest))
  {
    hide DoubleConforms, ToDouble, HidesSide, Times, Real2, ShiftRightRound;
    var f := F80(T64 - 1, BIAS80 - BIAS64, false);
    assert FirstRounding(f, Nearest) == T63 - 1 by { NoShift(T63 - 1, false, Nearest); }
    ElevenBits(T63 - 1, false, Nearest);
    NarrowCode(f, Nearest);
    OnePartBelow(Magnitude(f));
    ToDoubleIff(f, Nearest);
  }

  lemma OnePartBelow(x: real)
    requires x == Times(T64 - 1, Real2(LEAST_QUANTUM - 12))
    ensures ReachesNormalDouble(x, false, Nearest)
  {
    hide Times, Real2;
    var c := Real2(LEAST_QUANTUM - 12);
    Pow2Twelve();
    TimesShift(T52, 12, LEAST_QUANTUM - 12);
    TimesShift(1, 12, LEAST_QUANTUM - 12);
    OnePlace(T64 - 1, c);
    OnePlace(1, c);
    OnePlace(0, c);
    ZeroTimes(c);
    TimesMonotone(2, 0x1000, c);
  }

  lemma NoShift(i: U128, sign: bool, mode: Mode)
    ensures ShiftRightRound(i, 0, sign, mode) == i
  {
  }

  // ----- infinities and NaNs -----

  predicate IsNanDouble(d: Double) {
    d.exp == EXP64_SPECIAL && d.signif != 0
  }

  /** The part of a NaN's significand that survives rounding is neither nothing nor a carry. */
  predicate NanSurvives(f: F80, mode: Mode) {
    if mode == Nearest then T63 + 0x400 < f.signif < T64 - 0x400
    else if RoundsAway(f.sign, mode) then f.signif <= T64 - 0x800
    else T63 + 0x800 <= f.signif
  }

  /** An infinity stays one, and a NaN stays one exactly when its significand survives. */
  lemma SpecialToDouble(f: F80, mode: Mode)
    requires !Finite(f)
    ensures !Supported(f) ==> IsNanDouble(ToDouble(f, mode))
    ensures Supported(f) && IsInf(f) ==> ToDouble(f, mode) == Double(0, EXP64_SPECIAL, f.sign)
    ensures Supported(f) && IsNan(f) ==> (IsNanDouble(ToDouble(f, mode)) <==> NanSurvives(f, mode))
  {
    hide ShiftRightRound, NanSurvives;
    if Supported(f) {
      hide ToDouble;
      SupportedToDouble(f, mode);
    }
  }

  lemma SupportedToDouble(f: F80, mode: Mode)
    requires Supported(f) && f.exp == EXP_SPECIAL
    ensures IsInf(f) ==> ToDouble(f, mode) == Double(0, EXP64_SPECIAL, f.sign)
    ensures IsNan(f) ==> (IsNanDouble(ToDouble(f, mode)) <==> NanSurvives(f, mode))
  {
    hide ShiftRightRound;
    ElevenBits(f.signif, f.sign, mode);
    var k := ShiftRightRound(f.signif, 11, f.sign, mode);
    assert T52 <= k <= T53;
  }

  /** The NaN with all bits set becomes zero. */
  lemma NanBecomesZero()
    ensures ToDouble(F80(T64 - 1, EXP_SPECIAL, false), Nearest) == Double(0, 0, false)
  {
    hide ShiftRightRound;
    ElevenBits(T64 - 1, false, Nearest);
    assert ShiftRightRound(T64 - 1, 11, false, Nearest) == T53;
  }

  // ----- from doubles -----

  /** f80_from_double is exact, and keeps zeroes, infinities and NaNs what they are. */
  lemma FromDoubleExact(d: Double)
    ensures FromDouble(d).sign == d.sign && Supported(FromDouble(d))
    ensures FiniteDouble(d) ==> Finite(FromDouble(d)) && Magnitude(FromDouble(d)) == SizeOf(d)
    ensures d.exp == EXP64_SPECIAL ==> if d.signif == 0 then IsInf(FromDouble(d)) else IsNan(FromDouble(d))
  {
    hide Times, Real2, Normalize, Clz64, Shl, Pow2;
    var exp := if d.exp == EXP64_SPECIAL then EXP_SPECIAL else if d.exp == 0 then 1 - BIAS64 + BIAS80
               else d.exp - BIAS64 + BIAS80;
    var signif := FullSignif(d) * 0x800;
    if d.exp == 0 && d.signif == 0 {
      ZeroFromDouble(d);
    } else {
      NormalizeValue(signif, exp, d.sign);
      ElevenUnits(FullSignif(d), exp - BIAS80 - 52);
      if d.exp != 0 { FullWidth(signif); }
      assert FromDouble(d) == Normalize(F80(signif, exp, d.sign));
      NormalizeSign(F80(signif, exp, d.sign));
    }
  }

  lemma NormalizeSign(f: F80)
    ensures Normalize(f).sign == f.sign && (f.exp < EXP_SPECIAL ==> Normalize(f).exp < EXP_SPECIAL)
  {
    hide Clz64, Shl;
  }

  lemma ElevenUnits(k: nat, e: int)
    ensures Times(k * 0x800, Real2(e - 11)) == Times(k, Real2(e))
  {
    hide Times, Real2;
    assert Pow2(11) == 0x800;
    TimesShift(k, 11, e - 11);
  }

  lemma ZeroFromDouble(d: Double)
    requires d.exp == 0 && d.signif == 0
    ensures FromDouble(d) == F80(0, 0, d.sign) && Magnitude(FromDouble(d)) == 0.0 == SizeOf(d)
  {
    hide Times, Real2, Clz64, Shl;
    ZeroTimes(Real2(MIN_QUANTUM));
    ZeroTimes(Real2(LEAST_QUANTUM));
  }
}
