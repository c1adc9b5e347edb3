/** The real number a float80 stands for, and rounding to the nearest such number (section 4.3 of IEEE 754-2008). */
module Float80Values {
  import opened PowersOfTwo
  import opened Float80
  import opened Float80Rounding

  /** The exponent of the unit in the last place. */
  function QuantumExp(f: F80): int {
    UnbiasDenormal(f.exp) - 63
  }

  const MIN_QUANTUM := Unbias(EXP_MIN) - 63

  ghost function Times(k: int, q: real): real {
    k as real * q
  }

  ghost function Magnitude(f: F80): real {
    Times(f.signif, Real2(QuantumExp(f)))
  }

  ghost function Value(f: F80): real {
    if f.sign then -Magnitude(f) else Magnitude(f)
  }

  ghost function Distance(x: real, y: real): real {
    if x <= y then y - x else x - y
  }

  ghost predicate RoundedDown(x: real, r: F80) {
    Finite(r) && Value(r) <= x && forall g :: Finite(g) && Value(g) <= x ==> Value(g) <= Value(r)
  }

  ghost predicate RoundedUp(x: real, r: F80) {
    Finite(r) && Value(r) >= x && forall g :: Finite(g) && Value(g) >= x ==> Value(g) >= Value(r)
  }

  ghost predicate RoundedToNearest(x: real, r: F80) {
    Finite(r) && forall g :: Finite(g) ==>
      && Distance(Value(r), x) <= Distance(Value(g), x)
      && (Distance(Value(r), x) == Distance(Value(g), x) ==> Value(g) == Value(r) || r.signif % 2 == 0)
  }

  /** `r` is the float80 that the standard asks for when the exact result is `x`. */
  ghost predicate CorrectlyRounded(x: real, mode: Mode, r: F80) {
    match mode
    case Down => RoundedDown(x, r)
    case Up => RoundedUp(x, r)
    case Chop => if x >= 0.0 then RoundedDown(x, r) else RoundedUp(x, r)
    case Nearest => RoundedToNearest(x, r)
  }

  /** Rounding of a nonnegative real to the multiple `m` of `q`. */
  ghost predicate RoundsOnGrid(x: real, q: real, m: real, even: bool, sign: bool, mode: Mode) {
    if RoundsAway(sign, mode) then m - q < x <= m
    else if mode == Nearest then -q <= 2.0 * (x - m) <= q && (even || -q < 2.0 * (x - m) < q)
    else m <= x < m + q
  }

  lemma GridGap(j: int, k: int, q: real)
    requires q > 0.0
    ensures j == k || Times(j, q) >= Times(k, q) + q || Times(j, q) <= Times(k, q) - q
    ensures j <= k ==> Times(j, q) <= Times(k, q)
  {
    hide Times;
    OnePlace(k, q);
    TimesMonotone(j, k, q);
    TimesMonotone(k + 1, j, q);
    TimesMonotone(j, k - 1, q);
  }

  /** Every float lies on the grid of step 2^e, or strictly below the binade that grid belongs to. */
  lemma GridPoint(g: F80, e: int) returns (onGrid: bool, j: int)
    requires Finite(g) && e >= MIN_QUANTUM
    ensures onGrid ==> Value(g) == Times(j, Real2(e))
    ensures !onGrid ==> e > MIN_QUANTUM && -Times(T63, Real2(e)) < Value(g) < Times(T63, Real2(e))
  {
    onGrid := QuantumExp(g) >= e;
    j := 0;
    if onGrid {
      j := CoarserOnGrid(g.signif, QuantumExp(g), e);
      TimesNegated(j, Real2(e));
      j := if g.sign then -j else j;
    } else {
      FinerBelowBinade(g.signif, QuantumExp(g), e);
    }
  }

  lemma CoarserOnGrid(s: nat, eg: int, e: int) returns (j: nat)
    requires eg >= e
    ensures Times(s, Real2(eg)) == Times(j, Real2(e))
  {
    var n := Pow2(eg - e);
    Real2AddNat(e, eg - e);
    TimesProduct(s, n, Real2(e));
    j := s * n;
  }

  lemma TimesProduct(s: nat, n: nat, q: real)
    ensures Times(s, q * n as real) == Times(s * n, q)
  {
    assert (s * n) as real == s as real * n as real;
  }

  lemma TimesNegated(j: int, q: real)
    ensures Times(-j, q) == -Times(j, q)
  {
  }

  lemma FinerBelowBinade(s: U64, eg: int, e: int)
    requires eg < e
    ensures 0.0 <= Times(s, Real2(eg)) < Times(T63, Real2(e))
  {
    Real2Monotone(eg, e - 1);
    Real2Succ(e - 1);
    BelowBinade(s, Real2(eg), Real2(e));
  }

  lemma BelowBinade(s: U64, small: real, q: real)
    requires 0.0 < small && 2.0 * small <= q
    ensures 0.0 <= Times(s, small) < Times(T63, q)
  {
    assert s as real * small <= (T64 - 1) as real * small;
    assert T63 as real * (q - 2.0 * small) >= 0.0;
  }

  lemma NegValue(g: F80)
    ensures Value(Neg(g)) == -Value(g) && (Finite(g) <==> Finite(Neg(g)))
  {
  }

  function Flip(mode: Mode): Mode {
    match mode
    case Down => Up
    case Up => Down
    case Chop => Chop
    case Nearest => Nearest
  }

  /** Rounding a negative number is rounding its mirror image. */
  lemma MirrorRounded(x: real, mode: Mode, r: F80)
    requires x != 0.0 && CorrectlyRounded(-x, Flip(mode), Neg(r))
    ensures CorrectlyRounded(x, mode, r)
  {
    NegValue(r);
    forall g | Finite(g)
      ensures RoundedDown(-x, Neg(r)) && Value(g) >= x ==> Value(g) >= Value(r)
      ensures RoundedUp(-x, Neg(r)) && Value(g) <= x ==> Value(g) <= Value(r)
      ensures RoundedToNearest(-x, Neg(r)) ==>
        && Distance(Value(r), x) <= Distance(Value(g), x)
        && (Distance(Value(r), x) == Distance(Value(g), x) ==> Value(g) == Value(r) || r.signif % 2 == 0)
    {
      NegValue(g);
    }
  }

  /** A number rounded on the grid of its own binade is correctly rounded among all floats. */
  lemma GridRoundingIsCorrect(x: real, e: int, k: nat, mode: Mode, r: F80)
    requires e >= MIN_QUANTUM && (e == MIN_QUANTUM || x >= Times(T63, Real2(e)))
    requires RoundsOnGrid(x, Real2(e), Times(k, Real2(e)), k % 2 == 0, false, mode)
    requires Finite(r) && !r.sign && Magnitude(r) == Times(k, Real2(e))
    requires k % 2 == 0 ==> r.signif % 2 == 0
    requires x >= 0.0
    ensures CorrectlyRounded(x, mode, r)
  {
    var q, m := Real2(e), Times(k, Real2(e));
    GridGap(T63, k, q);
    forall g | Finite(g)
      ensures m <= x < m + q && Value(g) <= x ==> Value(g) <= m
      ensures m - q < x <= m && Value(g) >= x ==> Value(g) >= m
      ensures -q <= 2.0 * (x - m) <= q ==> Distance(m, x) <= Distance(Value(g), x)
      ensures -q < 2.0 * (x - m) < q && Distance(m, x) == Distance(Value(g), x) ==> Value(g) == m
    {
      var onGrid, j := GridPoint(g, e);
      GridGap(j, k, q);
    }
  }

  lemma TimesMonotone(a: int, b: int, c: real)
    requires c > 0.0
    ensures a <= b <==> Times(a, c) <= Times(b, c)
    ensures a < b <==> Times(a, c) < Times(b, c)
  {
    TimesOrdered(a, b, c);
    TimesOrdered(b, a, c);
  }

  lemma TimesOrdered(a: int, b: int, c: real)
    requires c > 0.0
    ensures a < b ==> Times(a, c) < Times(b, c)
  {
    assert Times(b, c) - Times(a, c) == (b - a) as real * c;
  }

  lemma TimesPositive(a: nat, c: real)
    requires a > 0 && c > 0.0
    ensures Times(a, c) > 0.0
  {
  }

  lemma TimesLinear(a: int, b: int, c: real)
    ensures Times(a + b, c) == Times(a, c) + Times(b, c)
    ensures Times(a - b, c) == Times(a, c) - Times(b, c)
  {
  }

  lemma TimesTwice(a: int, c: real)
    ensures Times(2 * a, c) == 2.0 * Times(a, c) == Times(a, 2.0 * c)
  {
  }

  /** Rounding `n` to a multiple of `d` is rounding `n * c` to the same multiple of `d * c`. */
  lemma ScaleRounding(n: int, d: int, m: int, even: bool, sign: bool, mode: Mode, c: real)
    requires c > 0.0
    ensures RoundsToMultiple(n, d, m, even, sign, mode) <==>
            RoundsOnGrid(Times(n, c), Times(d, c), Times(m, c), even, sign, mode)
  {
    hide Times;
    TimesLinear(m, d, c);
    TimesLinear(n, m, c);
    TimesTwice(n - m, c);
    TimesNegated(d, c);
    TimesMonotone(m - d, n, c);
    TimesMonotone(n, m, c);
    TimesMonotone(m, n, c);
    TimesMonotone(n, m + d, c);
    TimesMonotone(-d, 2 * (n - m), c);
    TimesMonotone(2 * (n - m), d, c);
  }

  lemma TimesShift(s: nat, n: nat, e: int)
    ensures Times(s * Pow2(n), Real2(e)) == Times(s, Real2(e + n))
    ensures Times(Pow2(n), Real2(e)) == Real2(e + n)
  {
    hide Real2, Pow2;
    Real2AddNat(e, n);
    TimesProduct(s, Pow2(n), Real2(e));
  }

  lemma TimesGrows(k: nat, p: real, q: real)
    requires p <= q
    ensures Times(k, p) <= Times(k, q)
  {
    assert k as real * (q - p) >= 0.0;
  }

  lemma OnePlace(k: int, q: real)
    ensures Times(k + 1, q) == Times(k, q) + q && Times(k - 1, q) == Times(k, q) - q
  {
  }

  lemma ExactIsCorrect(x: real, mode: Mode, r: F80)
    requires Finite(r) && Value(r) == x
    ensures CorrectlyRounded(x, mode, r)
  {
  }

  lemma ExactOnly(v: real, mode: Mode, r: F80, g: F80)
    requires Finite(g) && Value(g) == v && CorrectlyRounded(v, mode, r)
    ensures Value(r) == v
  {
  }
}
