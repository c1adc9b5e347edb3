/** Infinities, zeroes by zero, NaNs and unsupported numbers (sections 6.1, 6.2, 7.2 and 7.3 of IEEE 754-2008). */
module Float80Special {
  import opened Float80
  import opened Float80Values
  import opened Float80Range
  import opened Float80Compare
  import opened Float80Convert
  import opened Float80Sum

  /** A quiet answer to an invalid operation: a NaN of the format. */
  predicate InvalidAnswer(r: F80) {
    Supported(r) && IsNan(r)
  }

  predicate Infinity(r: F80, sign: bool) {
    Supported(r) && IsInf(r) && r.sign == sign
  }

  predicate FiniteNonzero(f: F80) {
    Finite(f) && !IsZero(f)
  }

  // ----- NaNs -----

  /** Section 6.2.3: a NaN operand is handed on, of two the positive one, and of two with one sign the first. */
  predicate HandsOn(a: F80, b: F80, r: F80) {
    && (IsNan(a) && !IsNan(b) ==> r == a)
    && (IsNan(b) && !IsNan(a) ==> r == b)
    && (IsNan(a) && IsNan(b) && a.sign == b.sign ==> r == a)
    && (IsNan(a) && IsNan(b) && a.sign != b.sign ==> !r.sign && (r == a || r == b))
  }

  /** Arithmetic with a NaN operand is that NaN, whatever the other operand is. */
  lemma NanOperand(a: F80, b: F80, mode: Mode)
    requires Supported(a) && Supported(b) && (IsNan(a) || IsNan(b))
    ensures HandsOn(a, b, Add(a, b, mode)) && HandsOn(a, b, Mul(a, b, mode)) && HandsOn(a, b, Div(a, b, mode))
    ensures InvalidAnswer(Add(a, b, mode)) && InvalidAnswer(Mul(a, b, mode)) && InvalidAnswer(Div(a, b, mode))
  {
  }

  /** Arithmetic with a number the format does not have is invalid. */
  lemma UnsupportedOperand(a: F80, b: F80, mode: Mode)
    requires !Supported(a) || !Supported(b)
    ensures InvalidAnswer(Add(a, b, mode)) && InvalidAnswer(Mul(a, b, mode)) && InvalidAnswer(Div(a, b, mode))
  {
  }

  // ----- division -----

  /** Division with a zero or an infinite operand: invalid for 0/0 and inf/inf, and exact otherwise. */
  lemma DivSpecial(a: F80, b: F80, mode: Mode)
    requires Comparable(a) && Comparable(b)
    ensures FiniteNonzero(a) && IsZero(b) ==> Infinity(Div(a, b, mode), a.sign != b.sign)
    ensures IsZero(a) && IsZero(b) ==> InvalidAnswer(Div(a, b, mode))
    ensures IsInf(a) && IsInf(b) ==> InvalidAnswer(Div(a, b, mode))
    ensures IsInf(a) && Finite(b) ==> Infinity(Div(a, b, mode), a.sign != b.sign)
    ensures Finite(a) && IsInf(b) ==> IsZero(Div(a, b, mode)) && Div(a, b, mode).sign == (a.sign != b.sign)
  {
  }

  // ----- multiplication -----

  /** Multiplication with an infinite operand: invalid for a zero, and an infinity of the product's sign otherwise. */
  lemma MulSpecial(a: F80, b: F80, mode: Mode)
    requires Comparable(a) && Comparable(b) && (IsInf(a) || IsInf(b))
    ensures IsZero(a) || IsZero(b) ==> InvalidAnswer(Mul(a, b, mode))
    ensures !IsZero(a) && !IsZero(b) ==> Infinity(Mul(a, b, mode), a.sign != b.sign)
  {
  }

  // ----- addition -----

  /** Addition with an infinite operand: invalid for opposite infinities, and the infinity otherwise. */
  lemma AddSpecial(a: F80, b: F80, mode: Mode)
    requires Comparable(a) && Comparable(b) && (IsInf(a) || IsInf(b))
    ensures IsInf(a) && IsInf(b) && a.sign != b.sign ==> InvalidAnswer(Add(a, b, mode))
    ensures IsInf(a) && !(IsInf(b) && a.sign != b.sign) ==> Infinity(Add(a, b, mode), a.sign)
    ensures IsInf(b) && !(IsInf(a) && a.sign != b.sign) ==> Infinity(Add(a, b, mode), b.sign)
  {
    if IsInf(a) && IsInf(b) && a.sign != b.sign {
      OppositeInfinities(a, b, mode);
    } else if IsInf(a) {
      AddInfinite(a, b, mode);
    } else {
      AddInfinite(b, a, mode);
    }
  }

  lemma OppositeInfinities(a: F80, b: F80, mode: Mode)
    requires Comparable(a) && Comparable(b) && IsInf(a) && IsInf(b) && a.sign != b.sign
    ensures Add(a, b, mode) == F80_NAN
  {
    hide ShiftRightRound;
  }

  /** Subtraction is addition of the opposite, and as right as that is. */
  lemma SubCorrectIff(a: F80, b: F80, mode: Mode)
    requires Finite(a) && Finite(b)
    ensures ConformsTo(Value(a) - Value(b), mode, Sub(a, b, mode)) <==>
            !(if a.exp < b.exp then Misadds(Neg(b), a, mode) else Misadds(a, Neg(b), mode))
  {
    hide ConformsTo, Misadds, Value, Add;
    NegValue(b);
    AddCorrectIff(a, Neg(b), mode);
  }

  // ----- comparisons -----

  /** f80_lte and f80_gt. */
  predicate Lte(a: F80, b: F80, mode: Mode) {
    Lt(a, b, mode) || Eq(a, b)
  }

  predicate Gt(a: F80, b: F80, mode: Mode) {
    !Lte(a, b, mode)
  }

  /** Less-than, equal and less-or-equal are false of operands without an order. */
  lemma UnorderedIsFalse(a: F80, b: F80, mode: Mode)
    requires !Comparable(a) || !Comparable(b)
    ensures !Lt(a, b, mode) && !Eq(a, b) && !Lte(a, b, mode)
  {
  }

  lemma LteDecidesOrder(a: F80, b: F80, mode: Mode)
    requires Comparable(a) && Comparable(b)
    ensures Lte(a, b, mode) <==> Value(a) <= Value(b)
  {
    hide Lt, Eq, Value;
    LtDecidesOrder(a, b, mode);
    EqDecidesEquality(a, b);
  }

  /** `a` and `b` have an order, and `a` comes after `b`. */
  ghost predicate Greater(a: F80, b: F80) {
    Comparable(a) && Comparable(b) && Value(a) > Value(b)
  }

  /** f80_gt is the negation of f80_lte, and so right exactly for operands that have an order. */
  lemma GtDecidesOrderIff(a: F80, b: F80, mode: Mode)
    ensures (Gt(a, b, mode) <==> Greater(a, b)) <==> Comparable(a) && Comparable(b)
  {
    hide Lt, Eq, Value, Lte;
    if Comparable(a) && Comparable(b) {
      LteDecidesOrder(a, b, mode);
    } else {
      UnorderedIsFalse(a, b, mode);
    }
  }

  /** A NaN is greater than itself. */
  lemma NanIsGreater(mode: Mode)
    ensures Gt(F80_NAN, F80_NAN, mode)
  {
    UnorderedIsFalse(F80_NAN, F80_NAN, mode);
  }

  // ----- conversions -----

  /** Rounding leaves infinities and NaNs alone; converting them to an integer gives the indefinite one. */
  lemma SpecialToInteger(f: F80, mode: Mode)
    ensures !Supported(f) ==> InvalidAnswer(Round(f, mode)) && ToInt(f, mode) == INT64_MIN
    ensures Supported(f) && (IsInf(f) || IsNan(f)) ==> Round(f, mode) == f && ToInt(f, mode) == INT64_MIN
  {
  }
}
